/** The PDF to Word tool: the text it assembles from the pages' text items
    and the name of the document it saves. Building the .docx is not
    modelled: the download carries the text it would hold. */
module PdfToWord {
  import opened Wrappers
  import opened JsText
  import opened Pdf

  /** Why a click ends with an error status instead of a download. */
  datatype WordError =
    | NoFileSelected  // "Please select a PDF file"
    | ConvertFailed   // the catch branch: the PDF did not load

  /** A Word document offered for download: its name and its one run of
      text. */
  datatype WordDownload = WordDownload(name: string, text: string)

  /** The text of one page: the `str` of its items joined by single
      spaces. */
  function PageText(items: seq<string>): string {
    Join(items, " ")
  }

  /** Items holding no space are recovered from their page text. */
  lemma PageTextItems(items: seq<string>)
    requires |items| >= 1
    requires forall k :: 0 <= k < |items| ==> ' ' !in items[k]
    ensures Split(PageText(items), ' ') == items
  {
    SplitJoin(items, ' ');
  }

  /** The text of the whole document: each page's text followed by a blank
      line, page after page. */
  function DocumentText(pages: seq<Page>): string {
    if pages == [] then ""
    else PageText(pages[0].textItems) + "\n\n" + DocumentText(pages[1..])
  }

  /** No pages give the empty text; every page adds at least its blank
      line. */
  lemma {:induction false} DocumentTextLength(pages: seq<Page>)
    ensures DocumentText(pages) == [] <==> pages == []
    ensures |DocumentText(pages)| >= 2 * |pages|
  {
    if pages != [] {
      DocumentTextLength(pages[1..]);
    }
  }

  /** The text of two runs of pages is the text of the first followed by the
      text of the second. */
  lemma {:induction false} DocumentTextConcat(a: seq<Page>, b: seq<Page>)
    ensures DocumentText(a + b) == DocumentText(a) + DocumentText(b)
  {
    if a == [] {
      assert a + b == b;
    } else {
      assert (a + b)[0] == a[0];
      assert (a + b)[1..] == a[1..] + b;
      DocumentTextConcat(a[1..], b);
    }
  }

  /** One page's text, followed by its blank line. */
  lemma DocumentTextSingle(page: Page)
    ensures DocumentText([page]) == PageText(page.textItems) + "\n\n"
  {
    assert [page][1..] == [];
  }

  /** A page's text sits between the text of the pages before it and the
      text of the pages after it: every page appears once, in order. */
  lemma DocumentTextAt(before: seq<Page>, page: Page, after: seq<Page>)
    ensures DocumentText(before + [page] + after) ==
      DocumentText(before) + PageText(page.textItems) + "\n\n" + DocumentText(after)
  {
    DocumentTextConcat(before + [page], after);
    DocumentTextConcat(before, [page]);
    DocumentTextSingle(page);
  }

  /** The conversion loop: fullText += pageText + '\n\n' for pageNum from 1
      to the page count. */
  method ExtractText(pages: seq<Page>) returns (fullText: string)
    ensures fullText == DocumentText(pages)
  {
    fullText := "";
    for pageNum := 1 to |pages| + 1
      invariant fullText == DocumentText(pages[..pageNum - 1])
    {
      var pageText := PageText(pages[pageNum - 1].textItems);
      var done := pages[..pageNum - 1];
      assert pages[..pageNum] == done + [pages[pageNum - 1]];
      DocumentTextConcat(done, [pages[pageNum - 1]]);
      DocumentTextSingle(pages[pageNum - 1]);
      fullText := fullText + (pageText + "\n\n");
    }
    assert pages[..|pages|] == pages;
  }

  /** name.replace('.pdf', '.docx'): the first ".pdf" becomes ".docx". */
  function WordName(name: string): string {
    ReplacePdf(name, ".docx")
  }

  /** "stem.pdf" becomes "stem.docx" when the stem holds no ".pdf" of its
      own; a name without ".pdf" is kept. */
  lemma WordNameOfPdf(stem: string)
    requires forall j :: !OccursAt(stem, ".pdf", j)
    ensures WordName(stem + ".pdf") == stem + ".docx"
    ensures WordName(stem) == stem
  {
    ReplacePdfExtension(stem, ".docx");
  }

  /** The tool's global `selectedFile`. Unlike the other single-file tools
      it does not load the file when it is chosen. */
  class WordTool {
    var selectedFile: Option<File>

    constructor ()
      ensures selectedFile == None
    {
      selectedFile := None;
    }

    /** handleFile: the file becomes the selection. */
    method HandleFile(file: File)
      modifies this
      ensures selectedFile == Some(file)
    {
      selectedFile := Some(file);
    }

    /** resetTool: nothing is selected. */
    method ResetTool()
      modifies this
      ensures selectedFile == None
    {
      selectedFile := None;
    }

    /** The convert button: without a file it refuses; otherwise it loads the
        PDF, assembles the text of all its pages and saves it under the
        file's name with ".pdf" replaced by ".docx". */
    method ConvertClick() returns (r: Result<WordDownload, WordError>)
      ensures selectedFile.None? ==> r == Failure(NoFileSelected)
      ensures selectedFile.Some? ==>
        match selectedFile.value.document
        case None => r == Failure(ConvertFailed)
        case Some(pages) => r == Success(WordDownload(WordName(selectedFile.value.name), DocumentText(pages)))
    {
      if selectedFile.None? {
        return Failure(NoFileSelected);
      }
      var file := selectedFile.value;
      match file.document
      case None =>
        r := Failure(ConvertFailed);
      case Some(pages) =>
        var fullText := ExtractText(pages);
        r := Success(WordDownload(WordName(file.name), fullText));
    }
  }
}

/** The split tool: the rule that enables its button, the checks its click
    handler makes, and the pages it copies into the new document. */
module Split {
  import opened Wrappers
  import opened JsText
  import opened JsArray
  import opened PageRange
  import opened Pdf

  /** Why a click ends with an error status instead of a download. */
  datatype SplitError =
    | NoFileSelected  // "Please select a PDF file"
    | NoPageNumbers   // "Please enter page numbers to extract"
    | NoValidPages    // "No valid pages specified. Please check your input."
    | SplitFailed     // the catch branch: the PDF did not load

  /** splitBtn.disabled = pageRange.value.trim() === '' */
  predicate SplitButtonDisabled(rangeText: string) {
    Trim(rangeText) == []
  }

  /** The button is disabled exactly when the text is blank. */
  lemma SplitButtonDisabledWhenBlank(rangeText: string)
    ensures SplitButtonDisabled(rangeText) <==> AllWhitespace(rangeText)
  {
    TrimCuts(rangeText);
  }

  /** The click handler's checks before it loads the PDF: the trimmed text
      must be non-empty, and it must name at least one page; text that does
      both always gets through to the load. */
  function PagesToExtract(rangeText: string, totalPagesCount: nat): (r: Result<seq<int>, SplitError>)
    ensures r == Failure(NoPageNumbers) <==> Trim(rangeText) == []
    ensures r == Failure(NoValidPages) <==> Trim(rangeText) != [] && Resolve(Trim(rangeText), totalPagesCount) == {}
    ensures r.Success? ==> r.value != [] && StrictlyAscending(r.value)
    ensures r.Success? ==> forall p :: p in r.value <==> p in Resolve(Trim(rangeText), totalPagesCount)
    ensures r.Success? <==> Trim(rangeText) != [] && Resolve(Trim(rangeText), totalPagesCount) != {}
  {
    var rangeString := Trim(rangeText);
    if rangeString == [] then Failure(NoPageNumbers)
    else
      var pages := PageList(rangeString, totalPagesCount);
      assert pages == [] <==> Resolve(rangeString, totalPagesCount) == {} by {
        if pages != [] {
          assert pages[0] in pages;
        }
      }
      if pages == [] then Failure(NoValidPages) else Success(pages)
  }

  /** The button is disabled exactly when a click would be refused for want
      of page numbers. */
  lemma DisabledButtonMeansNoPageNumbers(rangeText: string, totalPagesCount: nat)
    ensures SplitButtonDisabled(rangeText) <==> PagesToExtract(rangeText, totalPagesCount) == Failure(NoPageNumbers)
  {
  }

  /** newPdf.copyPages(pdfDoc, indices) followed by addPage for each copy:
      the pages at `indices`, in that order. */
  function CopyPages(pages: seq<Page>, indices: seq<int>): seq<Page>
    requires forall k :: 0 <= k < |indices| ==> 0 <= indices[k] < |pages|
  {
    seq(|indices|, k requires 0 <= k < |indices| => pages[indices[k]])
  }

  /** The split button: without a file, or with blank text, it refuses
      before parsing; a text naming no page is refused too; otherwise the
      PDF is loaded and the named pages, in ascending order, go into a new
      document offered as "extracted-pages-" + the file name. */
  method SplitClick(sel: Selection, rangeText: string) returns (r: Result<PdfDownload, SplitError>)
    requires sel.Valid()
    ensures sel.selectedFile.None? ==> r == Failure(NoFileSelected)
    ensures sel.selectedFile.Some? ==>
      match PagesToExtract(rangeText, sel.totalPagesCount)
      case Failure(e) => r == Failure(e)
      case Success(indices) =>
        match sel.selectedFile.value.document
        case None => r == Failure(SplitFailed)
        case Some(pages) =>
          && (forall k :: 0 <= k < |indices| ==> 0 <= indices[k] < |pages|)
          && r == Success(PdfDownload("extracted-pages-" + sel.selectedFile.value.name, CopyPages(pages, indices)))
  {
    if sel.selectedFile.None? {
      return Failure(NoFileSelected);
    }
    var file := sel.selectedFile.value;
    var rangeString := Trim(rangeText);
    if rangeString == [] {
      return Failure(NoPageNumbers);
    }
    var pagesToExtract := ParsePageRange(rangeString, sel.totalPagesCount);
    if |pagesToExtract| == 0 {
      return Failure(NoValidPages);
    }
    match file.document
    case None =>
      r := Failure(SplitFailed);
    case Some(pages) =>
      r := Success(PdfDownload("extracted-pages-" + file.name, CopyPages(pages, pagesToExtract)));
  }
}

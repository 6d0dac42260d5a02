/** What the tools see of files and PDF documents. The PDF libraries are not
    modelled: a file carries what loading it would give (its pages, or None
    when the library rejects it), and a page carries its rotation and the
    strings of its text items. */
module Pdf {
  import opened Wrappers
  import opened JsText

  /** A page: the rotation setRotation gives it, in degrees, and the `str`
      of each item of its text content, in order. */
  datatype Page = Page(rotation: int, textItems: seq<string>)

  /** A file the user picked or dropped. `document` is what loading it as a
      PDF yields: its pages, or None when loading throws. */
  datatype File = File(name: string, mimeType: string, document: Option<seq<Page>>)

  /** A file offered for download: its name and the pages of the PDF saved
      into it. */
  datatype PdfDownload = PdfDownload(name: string, pages: seq<Page>)

  const PdfMimeType: string := "application/pdf"

  predicate IsPdf(f: File) {
    f.mimeType == PdfMimeType
  }

  /** The state the single-file PDF tools (rotate, split, PDF to JPG) keep in
      their globals `selectedFile` and `totalPagesCount`. */
  class Selection {
    var selectedFile: Option<File>
    var totalPagesCount: nat

    /** When the selected file loads, the page count is its page count: a
        file that fails to load leaves the count of an earlier file behind,
        but then every later load of it fails too. */
    ghost predicate Valid()
      reads this
    {
      selectedFile.Some? && selectedFile.value.document.Some? ==>
        totalPagesCount == |selectedFile.value.document.value|
    }

    constructor ()
      ensures Valid()
      ensures selectedFile == None && totalPagesCount == 0
    {
      selectedFile := None;
      totalPagesCount := 0;
    }

    /** handleFile: the file is selected before it is loaded; when loading
        succeeds the page count is taken from the document, otherwise the
        error status is shown (`loaded` is false) and the count is left as
        it was. */
    method HandleFile(file: File) returns (loaded: bool)
      modifies this
      ensures Valid()
      ensures loaded <==> file.document.Some?
      ensures selectedFile == Some(file)
      ensures totalPagesCount == if loaded then |file.document.value| else old(totalPagesCount)
    {
      selectedFile := Some(file);
      match file.document
      case None =>
        loaded := false;
      case Some(pages) =>
        totalPagesCount := |pages|;
        loaded := true;
    }

    /** resetTool: nothing is selected and the page count is zero. */
    method ResetTool()
      modifies this
      ensures Valid()
      ensures selectedFile == None && totalPagesCount == 0
    {
      selectedFile := None;
      totalPagesCount := 0;
    }
  }

  /** `name.replace('.pdf', rep)`: the first occurrence of ".pdf" becomes
      `rep`; a name without ".pdf" is kept as it is. */
  function ReplacePdf(name: string, rep: string): string {
    ReplaceFirst(name, ".pdf", rep)
  }

  /** For a name "stem.pdf" whose stem holds no ".pdf", the replacement hits
      the extension: ".pdf" cannot start inside the stem and run into the
      extension, since the extension begins with '.' and ".pdf" holds no
      other '.'. */
  lemma ReplacePdfExtension(stem: string, rep: string)
    requires forall j :: !OccursAt(stem, ".pdf", j)
    ensures ReplacePdf(stem + ".pdf", rep) == stem + rep
  {
    var s := stem + ".pdf";
    assert s[|stem|..|stem| + 4] == ".pdf";
    assert OccursAt(s, ".pdf", |stem|);
    forall j | 0 <= j < |stem| ensures !OccursAt(s, ".pdf", j) {
      if j + 4 <= |stem| {
        assert stem[j..j + 4] == s[j..j + 4];
        assert !OccursAt(stem, ".pdf", j);
      } else {
        assert s[j..j + 4][|stem| - j] == '.';
      }
    }
    assert IndexOf(s, ".pdf") == Some(|stem|);
    assert s[..|stem|] == stem;
    assert s[|stem| + 4..] == [];
  }
}

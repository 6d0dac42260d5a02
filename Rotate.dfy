/** The rotate tool: which pages its click handler rotates, when it refuses,
    and what it offers for download. */
module Rotate {
  import opened Wrappers
  import opened JsText
  import opened JsArray
  import opened PageRange
  import opened Pdf

  /** Why a click ends with an error status instead of a download. */
  datatype RotateError =
    | NoFileSelected  // "Please select a PDF file"
    | NoPageNumbers   // "Please enter page numbers to rotate"
    | NoValidPages    // "No valid pages specified. Please check your input."
    | RotateFailed    // the catch branch: the PDF did not load

  /** Array.from({ length: n }, (_, i) => i): every 0-based page, in
      order. */
  function AllPages(n: nat): (r: seq<int>)
    ensures StrictlyAscending(r)
    ensures forall p :: p in r <==> 0 <= p < n
  {
    var r := seq(n, i => i);
    forall p ensures p in r <==> 0 <= p < n {
      if p in r {
        var i :| 0 <= i < |r| && r[i] == p;
      }
      if 0 <= p < n {
        assert r[p] == p;
      }
    }
    r
  }

  /** The page selection of the click handler. "All" takes every page of
      the document; otherwise the trimmed text must be non-empty and must
      name at least one page of the document. Text that does both always
      succeeds, and the selection is then exactly the pages it names,
      ascending. */
  function PagesToRotate(applyToAll: bool, specificPages: string, totalPagesCount: nat): (r: Result<seq<int>, RotateError>)
    ensures applyToAll ==> r == Success(AllPages(totalPagesCount))
    ensures !applyToAll ==>
      (r == Failure(NoPageNumbers) <==> Trim(specificPages) == [])
    ensures !applyToAll ==>
      (r == Failure(NoValidPages) <==> Trim(specificPages) != [] && Resolve(Trim(specificPages), totalPagesCount) == {})
    ensures r.Success? ==> StrictlyAscending(r.value)
    ensures r.Success? ==> forall k :: 0 <= k < |r.value| ==> 0 <= r.value[k] < totalPagesCount
    ensures r.Success? && !applyToAll ==> r.value != []
    ensures r.Success? && !applyToAll ==>
      forall p :: p in r.value <==> p in Resolve(Trim(specificPages), totalPagesCount)
    ensures !applyToAll ==>
      (r.Success? <==> Trim(specificPages) != [] && Resolve(Trim(specificPages), totalPagesCount) != {})
  {
    if applyToAll then
      var all := AllPages(totalPagesCount);
      assert forall k :: 0 <= k < |all| ==> all[k] in all;
      Success(all)
    else
      var rangeString := Trim(specificPages);
      if rangeString == [] then Failure(NoPageNumbers)
      else
        var pages := PageList(rangeString, totalPagesCount);
        assert pages == [] <==> Resolve(rangeString, totalPagesCount) == {} by {
          if pages != [] {
            assert pages[0] in pages;
          }
        }
        if pages == [] then Failure(NoValidPages) else Success(pages)
  }

  /** The pages after setRotation(degrees(angle)) on each target: targets
      get the angle (it replaces, it does not add up), every other page and
      all text stay as they were. */
  function Rotated(pages: seq<Page>, targets: seq<int>, angle: int): (r: seq<Page>)
    ensures |r| == |pages|
    ensures forall i :: 0 <= i < |r| ==> r[i].textItems == pages[i].textItems
    ensures forall i :: 0 <= i < |r| ==> r[i].rotation == if i in targets then angle else pages[i].rotation
  {
    seq(|pages|, i requires 0 <= i < |pages| => if i in targets then pages[i].(rotation := angle) else pages[i])
  }

  /** Rotating the same pages to the same angle a second time changes
      nothing. */
  lemma RotateTwice(pages: seq<Page>, targets: seq<int>, angle: int)
    ensures Rotated(Rotated(pages, targets, angle), targets, angle) == Rotated(pages, targets, angle)
  {
    var once := Rotated(pages, targets, angle);
    var twice := Rotated(once, targets, angle);
    forall i | 0 <= i < |pages| ensures twice[i] == once[i] {
      assert twice[i].rotation == once[i].rotation && twice[i].textItems == once[i].textItems;
    }
  }

  /** pagesToRotate.forEach(i => pages[i].setRotation(...)), one target at a
      time. */
  method ApplyRotation(pages: seq<Page>, targets: seq<int>, angle: int) returns (rotated: seq<Page>)
    requires forall k :: 0 <= k < |targets| ==> 0 <= targets[k] < |pages|
    ensures rotated == Rotated(pages, targets, angle)
  {
    rotated := pages;
    for k := 0 to |targets|
      invariant |rotated| == |pages|
      invariant forall i :: 0 <= i < |pages| ==>
        rotated[i] == if i in targets[..k] then pages[i].(rotation := angle) else pages[i]
    {
      var t := targets[k];
      assert targets[..k + 1] == targets[..k] + [t];
      rotated := rotated[t := rotated[t].(rotation := angle)];
    }
    assert targets[..|targets|] == targets;
  }

  /** The rotate button: without a file it refuses; otherwise it selects the
      pages, loads the PDF, rotates the selected pages and offers
      "rotated-" + the file name. */
  method RotateClick(sel: Selection, applyToAll: bool, specificPages: string, angle: int)
      returns (r: Result<PdfDownload, RotateError>)
    requires sel.Valid()
    ensures sel.selectedFile.None? ==> r == Failure(NoFileSelected)
    ensures sel.selectedFile.Some? ==>
      match PagesToRotate(applyToAll, specificPages, sel.totalPagesCount)
      case Failure(e) => r == Failure(e)
      case Success(targets) =>
        match sel.selectedFile.value.document
        case None => r == Failure(RotateFailed)
        case Some(pages) =>
          r == Success(PdfDownload("rotated-" + sel.selectedFile.value.name, Rotated(pages, targets, angle)))
  {
    if sel.selectedFile.None? {
      return Failure(NoFileSelected);
    }
    var file := sel.selectedFile.value;
    var targets: seq<int>;
    if applyToAll {
      targets := AllPages(sel.totalPagesCount);
    } else {
      var rangeString := Trim(specificPages);
      if rangeString == [] {
        return Failure(NoPageNumbers);
      }
      targets := ParsePageRange(rangeString, sel.totalPagesCount);
      if |targets| == 0 {
        return Failure(NoValidPages);
      }
    }
    assert PagesToRotate(applyToAll, specificPages, sel.totalPagesCount) == Success(targets);
    match file.document
    case None =>
      r := Failure(RotateFailed);
    case Some(pages) =>
      var rotated := ApplyRotation(pages, targets, angle);
      r := Success(PdfDownload("rotated-" + file.name, rotated));
  }

  /** Typing "1-N" for a document of N >= 1 pages selects the same pages as
      choosing "all". */
  lemma FullRangeIsAll(n: nat)
    requires n >= 1
    ensures PagesToRotate(false, "1-" + NatToString(n), n) == PagesToRotate(true, "", n)
  {
    var text := "1-" + NatToString(n);
    var digits := NatToString(n);
    assert IsRadixDigit(digits[|digits| - 1], 10);
    assert text[|text| - 1] == digits[|digits| - 1];
    TrimUnchanged(text);
    FullRange(n);
    assert 0 in Resolve(text, n);
    StrictlyAscendingUnique(PageList(text, n), AllPages(n));
  }
}

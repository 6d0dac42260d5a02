/** The merge tool: the list of selected files it changes in place, the rule
    that enables its button, and the document it builds from the list. */
module Merge {
  import opened Wrappers
  import opened Pdf

  /** Why a click ends with an error status instead of a download. */
  datatype MergeError =
    | TooFewFiles  // "Please select at least 2 PDF files to merge"
    | MergeFailed  // the catch branch: one of the PDFs did not load

  /** The files whose type is application/pdf, in their order. */
  function PdfOnly(files: seq<File>): (r: seq<File>)
    ensures |r| <= |files|
    ensures forall k :: 0 <= k < |r| ==> IsPdf(r[k])
  {
    if files == [] then []
    else (if IsPdf(files[0]) then [files[0]] else []) + PdfOnly(files[1..])
  }

  /** The filter keeps exactly the PDFs. */
  lemma {:induction false} PdfOnlyMembers(files: seq<File>)
    ensures forall f :: f in PdfOnly(files) <==> f in files && IsPdf(f)
  {
    if files != [] {
      PdfOnlyMembers(files[1..]);
      assert files == [files[0]] + files[1..];
    }
  }

  /** Filtering distributes over concatenation, so files added in two
      batches end up as if added in one. */
  lemma {:induction false} PdfOnlyConcat(a: seq<File>, b: seq<File>)
    ensures PdfOnly(a + b) == PdfOnly(a) + PdfOnly(b)
  {
    if a == [] {
      assert a + b == b;
    } else {
      assert (a + b)[0] == a[0];
      assert (a + b)[1..] == a[1..] + b;
      PdfOnlyConcat(a[1..], b);
      var head := if IsPdf(a[0]) then [a[0]] else [];
      assert PdfOnly(a + b) == head + (PdfOnly(a[1..]) + PdfOnly(b));
      assert PdfOnly(a) == head + PdfOnly(a[1..]);
    }
  }

  /** One more file: it is appended when it is a PDF. */
  lemma PdfOnlySnoc(files: seq<File>, f: File)
    ensures PdfOnly(files + [f]) == PdfOnly(files) + (if IsPdf(f) then [f] else [])
  {
    PdfOnlyConcat(files, [f]);
    assert [f][1..] == [];
  }

  /** Filtering twice is filtering once: the drop handler's filter followed
      by the one in addFiles keeps the same files. */
  lemma {:induction false} PdfOnlyIdempotent(files: seq<File>)
    ensures PdfOnly(PdfOnly(files)) == PdfOnly(files)
  {
    if files != [] {
      PdfOnlyIdempotent(files[1..]);
      var head := if IsPdf(files[0]) then [files[0]] else [];
      PdfOnlyConcat(head, PdfOnly(files[1..]));
      assert PdfOnly(head) == head by {
        if head != [] {
          assert head[1..] == [];
        }
      }
    }
  }

  /** A list of PDFs passes the filter unchanged. */
  lemma {:induction false} PdfOnlyAllPdf(files: seq<File>)
    requires forall k :: 0 <= k < |files| ==> IsPdf(files[k])
    ensures PdfOnly(files) == files
  {
    if files != [] {
      PdfOnlyAllPdf(files[1..]);
      assert files == [files[0]] + files[1..];
    }
  }

  /** Array.prototype.splice(index, 1) on a list: a negative index counts
      from the end (and stops at 0), an index past the end removes
      nothing. */
  function SpliceOne(xs: seq<File>, index: int): (r: seq<File>)
    ensures 0 <= index < |xs| ==> |r| == |xs| - 1
    ensures 0 <= index < |xs| ==> forall k :: 0 <= k < index ==> r[k] == xs[k]
    ensures 0 <= index < |xs| ==> forall k :: index <= k < |r| ==> r[k] == xs[k + 1]
    ensures index >= |xs| ==> r == xs
  {
    var start := if index < 0 then (if |xs| + index < 0 then 0 else |xs| + index) else index;
    if start < |xs| then xs[..start] + xs[start + 1..] else xs
  }

  /** Putting the removed file back where it was restores the list. */
  lemma SpliceOneUndo(xs: seq<File>, index: int)
    requires 0 <= index < |xs|
    ensures SpliceOne(xs, index)[..index] + [xs[index]] + SpliceOne(xs, index)[index..] == xs
  {
    var r := SpliceOne(xs, index);
    var back := r[..index] + [xs[index]] + r[index..];
    assert |back| == |xs|;
    forall k | 0 <= k < |xs| ensures back[k] == xs[k] {
      if k < index {
        assert back[k] == r[k];
      } else if k > index {
        assert back[k] == r[k - 1];
      }
    }
  }

  /** The pages of the merged document: every file's pages, file after file,
      or None when some file fails to load. */
  function MergedPages(files: seq<File>): Option<seq<Page>>
  {
    if files == [] then Some([])
    else
      match files[0].document
      case None => None
      case Some(pages) =>
        var rest := MergedPages(files[1..]);
        if rest.None? then None else Some(pages + rest.value)
  }

  /** The merge fails exactly when some file fails to load. */
  lemma {:induction false} MergedPagesFails(files: seq<File>)
    ensures MergedPages(files).None? <==> exists k :: 0 <= k < |files| && files[k].document.None?
  {
    if files != [] {
      MergedPagesFails(files[1..]);
      assert forall k :: 0 < k < |files| ==> files[k] == files[1..][k - 1];
      if files[0].document.Some? && MergedPages(files[1..]).None? {
        var k :| 0 <= k < |files[1..]| && files[1..][k].document.None?;
        assert files[k + 1].document.None?;
      }
    }
  }

  /** Merging two runs of files merges their merged pages. */
  lemma {:induction false} MergedPagesConcat(a: seq<File>, b: seq<File>)
    requires MergedPages(a).Some? && MergedPages(b).Some?
    ensures MergedPages(a + b) == Some(MergedPages(a).value + MergedPages(b).value)
  {
    if a == [] {
      assert a + b == b;
      assert MergedPages(a).value + MergedPages(b).value == MergedPages(b).value;
    } else {
      assert (a + b)[1..] == a[1..] + b;
      assert (a + b)[0] == a[0];
      var pages := a[0].document.value;
      MergedPagesConcat(a[1..], b);
      assert MergedPages(a) == Some(pages + MergedPages(a[1..]).value);
      var x, y := MergedPages(a[1..]).value, MergedPages(b).value;
      assert MergedPages(a + b) == Some(pages + (x + y));
      assert pages + (x + y) == (pages + x) + y;
    }
  }

  /** The merge tool's global `selectedFiles`. */
  class MergeTool {
    var selectedFiles: seq<File>

    /** Only PDFs ever enter the list. */
    ghost predicate Valid()
      reads this
    {
      forall k :: 0 <= k < |selectedFiles| ==> IsPdf(selectedFiles[k])
    }

    constructor ()
      ensures Valid() && selectedFiles == []
    {
      selectedFiles := [];
    }

    /** addFiles: each file of type application/pdf is pushed, in order; the
        entries already there stay as they were. */
    method AddFiles(files: seq<File>)
      requires Valid()
      modifies this
      ensures Valid()
      ensures selectedFiles == old(selectedFiles) + PdfOnly(files)
    {
      for i := 0 to |files|
        invariant Valid()
        invariant selectedFiles == old(selectedFiles) + PdfOnly(files[..i])
      {
        assert files[..i + 1] == files[..i] + [files[i]];
        PdfOnlySnoc(files[..i], files[i]);
        if IsPdf(files[i]) {
          selectedFiles := selectedFiles + [files[i]];
        }
      }
      assert files[..|files|] == files;
    }

    /** The drop handler: the dropped PDFs are added; a drop with none is
        refused (`accepted` is false) and the list is left alone. */
    method Drop(files: seq<File>) returns (accepted: bool)
      requires Valid()
      modifies this
      ensures Valid()
      ensures accepted <==> PdfOnly(files) != []
      ensures selectedFiles == old(selectedFiles) + PdfOnly(files)
    {
      var pdfs := PdfOnly(files);
      if |pdfs| > 0 {
        PdfOnlyIdempotent(files);
        AddFiles(pdfs);
        accepted := true;
      } else {
        accepted := false;
        assert selectedFiles == selectedFiles + pdfs;
      }
    }

    /** removeFile: selectedFiles.splice(index, 1). */
    method RemoveFile(index: int)
      requires Valid()
      modifies this
      ensures Valid()
      ensures selectedFiles == SpliceOne(old(selectedFiles), index)
    {
      var start := if index < 0 then (if |selectedFiles| + index < 0 then 0 else |selectedFiles| + index) else index;
      if start < |selectedFiles| {
        selectedFiles := selectedFiles[..start] + selectedFiles[start + 1..];
      }
    }

    /** updateMergeButton: mergeBtn.disabled = selectedFiles.length < 2 */
    predicate MergeButtonDisabled()
      reads this
    {
      |selectedFiles| < 2
    }

    /** resetTool: the list is emptied. */
    method ResetTool()
      modifies this
      ensures Valid() && selectedFiles == []
    {
      selectedFiles := [];
    }

    /** The merge button: with fewer than two files it refuses, exactly when
        the button shows as disabled; otherwise the files are loaded in list
        order and their pages appended one file after another into one
        document, "merged-document.pdf". */
    method MergeClick() returns (r: Result<PdfDownload, MergeError>)
      ensures r == Failure(TooFewFiles) <==> MergeButtonDisabled()
      ensures !MergeButtonDisabled() ==>
        r == match MergedPages(selectedFiles)
             case None => Failure(MergeFailed)
             case Some(pages) => Success(PdfDownload("merged-document.pdf", pages))
    {
      if |selectedFiles| < 2 {
        return Failure(TooFewFiles);
      }
      var merged: seq<Page> := [];
      for i := 0 to |selectedFiles|
        invariant MergedPages(selectedFiles[..i]) == Some(merged)
      {
        var file := selectedFiles[i];
        if file.document.None? {
          MergedPagesFails(selectedFiles);
          return Failure(MergeFailed);
        }
        var pages := file.document.value;
        assert selectedFiles[..i + 1] == selectedFiles[..i] + [file];
        assert MergedPages([file]) == Some(pages) by {
          assert [file][1..] == [];
          assert pages + [] == pages;
        }
        MergedPagesConcat(selectedFiles[..i], [file]);
        merged := merged + pages;
      }
      assert selectedFiles[..|selectedFiles|] == selectedFiles;
      r := Success(PdfDownload("merged-document.pdf", merged));
    }
  }
}

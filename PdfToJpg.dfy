/** The PDF to JPG tool: which pages it renders, how it names each image,
    and which file it offers for download. Rendering is not modelled: an
    image stands for the number of the page it was rendered from. */
module PdfToJpg {
  import opened Wrappers
  import opened JsText
  import opened JsArray
  import opened Pdf

  /** Why a click ends with an error status instead of a download. */
  datatype JpgError =
    | NoFileSelected  // "Please select a PDF file"
    | ConvertFailed   // the catch branch: loading or getPage threw

  /** What is saved: one image, or a zip archive mapping each entry name to
      the page rendered into it. */
  datatype JpgDownload =
    | ImageFile(name: string, pageNum: nat)
    | ZipFile(name: string, entries: map<string, nat>)

  /** The 1-based pages to render: all of them in order, or only the
      first. */
  function PagesToConvert(convertAll: bool, numPages: nat): (r: seq<nat>)
    ensures StrictlyAscending(r)
    ensures convertAll ==> |r| == numPages
    ensures convertAll ==> forall k :: 0 <= k < |r| ==> r[k] == k + 1
    ensures convertAll ==> forall p :: p in r <==> 1 <= p <= numPages
    ensures !convertAll ==> r == [1]
  {
    if convertAll then
      var r: seq<nat> := seq(numPages, i requires 0 <= i => i + 1);
      forall p ensures p in r <==> 1 <= p <= numPages {
        if 1 <= p <= numPages {
          assert r[p - 1] == p;
        }
      }
      r
    else [1]
  }

  /** name.replace('.pdf', ''): the file name without its first ".pdf". */
  function BaseName(name: string): string {
    ReplacePdf(name, "")
  }

  /** The base name of "stem.pdf" is the stem, when the stem holds no
      ".pdf" of its own. */
  lemma BaseNameOfPdf(stem: string)
    requires forall j :: !OccursAt(stem, ".pdf", j)
    ensures BaseName(stem + ".pdf") == stem
  {
    ReplacePdfExtension(stem, "");
    assert stem + "" == stem;
  }

  /** The entry name of page `pageNum` when `count` pages are converted. */
  function ImageName(base: string, count: nat, pageNum: nat): string {
    if count == 1 then base + ".jpg"
    else base + "_page_" + NatToString(pageNum) + ".jpg"
  }

  /** With several pages, different pages get different names, so no zip
      entry overwrites another. */
  lemma ImageNamesDistinct(base: string, count: nat, p: nat, q: nat)
    requires count != 1 && p != q
    ensures ImageName(base, count, p) != ImageName(base, count, q)
  {
    var a, b := NatToString(p), NatToString(q);
    var pre := base + "_page_";
    var s, t := pre + a + ".jpg", pre + b + ".jpg";
    if s == t {
      assert |a| == |b|;
      assert s[|pre|..|pre| + |a|] == a;
      assert t[|pre|..|pre| + |b|] == b;
      NatToStringInjective(p, q);
    }
  }

  /** The zip after zip.file(nameOf(p), image of p) for each page number p
      in turn; a later entry of the same name replaces an earlier one. */
  function Entries(pageNums: seq<nat>, nameOf: nat -> string): map<string, nat>
    decreases |pageNums|
  {
    if pageNums == [] then map[]
    else
      var last := pageNums[|pageNums| - 1];
      Entries(pageNums[..|pageNums| - 1], nameOf)[nameOf(last) := last]
  }

  /** When the pages get pairwise different names, the zip holds one entry
      per page, named after that page and holding it, and nothing else. */
  lemma {:induction false} EntriesOnePerPage(pageNums: seq<nat>, nameOf: nat -> string)
    requires forall i, j :: 0 <= i < j < |pageNums| ==> nameOf(pageNums[i]) != nameOf(pageNums[j])
    ensures var m := Entries(pageNums, nameOf);
      |m| == |pageNums| &&
      (forall k :: 0 <= k < |pageNums| ==> nameOf(pageNums[k]) in m && m[nameOf(pageNums[k])] == pageNums[k]) &&
      (forall name :: name in m ==> exists k :: 0 <= k < |pageNums| && name == nameOf(pageNums[k]))
  {
    if pageNums != [] {
      var n := |pageNums| - 1;
      var init, last := pageNums[..n], pageNums[n];
      assert forall i :: 0 <= i < n ==> init[i] == pageNums[i];
      EntriesOnePerPage(init, nameOf);
      var m0 := Entries(init, nameOf);
      var key := nameOf(last);
      forall k | 0 <= k < n ensures nameOf(init[k]) != key {
        assert nameOf(pageNums[k]) != nameOf(pageNums[n]);
      }
      assert key !in m0;
      var m := m0[key := last];
      assert Entries(pageNums, nameOf) == m;
      forall k | 0 <= k < |pageNums|
        ensures nameOf(pageNums[k]) in m && m[nameOf(pageNums[k])] == pageNums[k]
      {
        if k < n {
          assert nameOf(pageNums[k]) != nameOf(pageNums[n]);
        }
      }
      forall name | name in m ensures exists k :: 0 <= k < |pageNums| && name == nameOf(pageNums[k]) {
        if name != key {
          var k :| 0 <= k < n && name == nameOf(init[k]);
          assert init[k] == pageNums[k];
        }
      }
    }
  }

  /** Page number to entry name, for `count` converted pages. */
  function ImageNames(base: string, count: nat): nat -> string {
    (p: nat) => ImageName(base, count, p)
  }

  /** The zip of the converted pages under their image names. */
  function ZipEntries(base: string, pageNums: seq<nat>, count: nat): map<string, nat> {
    Entries(pageNums, ImageNames(base, count))
  }

  /** The pages of a whole document of n >= 2 pages get pairwise different
      image names. */
  lemma AllImageNamesDistinct(base: string, n: nat)
    requires n >= 2
    ensures var ps := PagesToConvert(true, n);
      forall i, j :: 0 <= i < j < |ps| ==> ImageNames(base, n)(ps[i]) != ImageNames(base, n)(ps[j])
  {
    var ps := PagesToConvert(true, n);
    forall i, j | 0 <= i < j < |ps| ensures ImageNames(base, n)(ps[i]) != ImageNames(base, n)(ps[j]) {
      ImageNamesDistinct(base, n, ps[i], ps[j]);
    }
  }

  /** The zip of a whole document of n >= 2 pages: the entry named for page
      p (base_page_p.jpg) holds page p, for each p in 1..n, and there are no other entries. */
  lemma ZipOfAllPages(base: string, n: nat)
    requires n >= 2
    ensures var m := ZipEntries(base, PagesToConvert(true, n), n);
      |m| == n &&
      (forall p :: 1 <= p <= n ==> ImageName(base, n, p) in m && m[ImageName(base, n, p)] == p) &&
      (forall name :: name in m ==> exists p :: 1 <= p <= n && name == ImageName(base, n, p))
  {
    var ps := PagesToConvert(true, n);
    var nameOf := ImageNames(base, n);
    AllImageNamesDistinct(base, n);
    EntriesOnePerPage(ps, nameOf);
    var m := Entries(ps, nameOf);
    forall p | 1 <= p <= n
      ensures ImageName(base, n, p) in m && m[ImageName(base, n, p)] == p
    {
      assert ps[p - 1] == p;
    }
    forall name | name in m ensures exists p :: 1 <= p <= n && name == ImageName(base, n, p) {
      var k :| 0 <= k < |ps| && name == nameOf(ps[k]);
      assert ps[k] in ps;
    }
    assert m == ZipEntries(base, ps, n);
  }

  /** The name of the download: the single image itself, or the zip. */
  function DownloadName(base: string, count: nat): (r: string)
    ensures count == 1 ==> r == ImageName(base, count, 1)
    ensures count != 1 ==> forall p: nat :: r != ImageName(base, count, p)
  {
    if count == 1 then base + ".jpg"
    else
      var r := base + "_images.zip";
      forall p: nat ensures r != ImageName(base, count, p) {
        var name := ImageName(base, count, p);
        if |name| == |r| {
          assert name[|name| - 1] == 'g' && r[|r| - 1] == 'p';
        }
      }
      r
  }

  /** The convert button: without a file it refuses; otherwise it loads the
      PDF, renders the chosen pages into a zip under their image names and
      saves either the single image or the whole zip. Asking only for the
      first page of a document with no pages fails in getPage(1). */
  method ConvertClick(sel: Selection, convertAll: bool) returns (r: Result<JpgDownload, JpgError>)
    ensures sel.selectedFile.None? ==> r == Failure(NoFileSelected)
    ensures sel.selectedFile.Some? ==>
      var file := sel.selectedFile.value;
      match file.document
      case None => r == Failure(ConvertFailed)
      case Some(pages) =>
        var ps := PagesToConvert(convertAll, |pages|);
        var base := BaseName(file.name);
        if !convertAll && |pages| == 0 then r == Failure(ConvertFailed)
        else if |ps| == 1 then r == Success(ImageFile(DownloadName(base, 1), 1))
        else r == Success(ZipFile(DownloadName(base, |ps|), ZipEntries(base, ps, |ps|)))
  {
    if sel.selectedFile.None? {
      return Failure(NoFileSelected);
    }
    var file := sel.selectedFile.value;
    if file.document.None? {
      return Failure(ConvertFailed);
    }
    var pages := file.document.value;
    var ps := PagesToConvert(convertAll, |pages|);
    var base := BaseName(file.name);
    var zip: map<string, nat> := map[];
    for i := 0 to |ps|
      invariant zip == ZipEntries(base, ps[..i], |ps|)
      invariant !convertAll && |pages| == 0 ==> i == 0
    {
      var pageNum := ps[i];
      assert pageNum in ps;
      if pageNum > |pages| {
        // getPage past the last page rejects
        return Failure(ConvertFailed);
      }
      assert ps[..i + 1][..i] == ps[..i];
      zip := zip[ImageName(base, |ps|, pageNum) := pageNum];
    }
    assert ps[..|ps|] == ps;
    if |ps| == 1 {
      var only := ImageName(base, 1, ps[0]);
      assert ps[..0] == [];
      r := Success(ImageFile(base + ".jpg", zip[only]));
    } else {
      r := Success(ZipFile(base + "_images.zip", zip));
    }
  }
}

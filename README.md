# filefusion page-range, file-list and naming logic in Dafny

filefusion is a set of browser PDF tools: rotate, split, merge, PDF to JPG
and PDF to Word. Each tool is a form handler that drives a PDF library. This
project models the logic the tools own and proves what it promises:

- **The page-range resolver `parsePageRange`**, shared by the rotate and
  split tools. It turns free text such as `"1-3, 5"` and a page count into an
  ascending list of 0-based page indices with no repeats. The model follows
  JavaScript to the letter: `trim`, `split` on every separator, `parseInt`
  (sign, `0x` prefix, longest digit prefix, NaN as `None`), the `Set`
  accumulator and the numeric sort. The method `ParsePageRange` keeps the
  source's loops. It is proved equal to `PageList`, a set-based
  specification built from the contribution of each token (`TokenPages`).
- **The rotate and split click handlers.** The model covers their checks
  (no file, blank text, nothing valid), the pages they act on and their
  output names. The tools' globals `selectedFile` and `totalPagesCount` form
  the class `Pdf.Selection`.
- **The merge tool's file list** `selectedFiles`, as the class
  `Merge.MergeTool`. It covers the filtered append, `splice` removal, reset,
  the drop filter, the two-file button rule, and the merge loop that puts
  the pages of the files one after another.
- **PDF to JPG.** Which 1-based pages are rendered, the name of each zip
  entry, the proof that entry names never collide, and the choice between a
  single image and a zip.
- **PDF to Word.** The text-assembly loop (items joined by spaces, each page
  followed by a blank line) and the `.pdf` to `.docx` renaming.

Library results are inputs. A `File` carries what loading it as a PDF would
give: its pages, or `None` when the library throws. A `Page` carries its
rotation and the strings of its text items. A rendered JPG stands for the
number of the page it was rendered from.

Modules: `Wrappers` (Option, Result), `JsText` (JavaScript string builtins),
`JsArray` (JavaScript `Set` and numeric sort), `PageRange`, `Pdf` (files,
pages, the single-file selection, `.pdf` replacement), `Rotate`, `Split`,
`Merge`, `PdfToJpg`, `PdfToWord`.

## Model

| member | source | states |
|---|---|---|
| JsText.TrimCuts | js/rotate.js:106 | `trim()` removes exactly the leading and trailing whitespace: the result is a slice with whitespace on both sides, it neither starts nor ends with whitespace, and it is empty iff the input is all whitespace |
| JsText.Trim | js/rotate.js:106 | `trim()`, as `trimStart` then `trimEnd` over the ECMAScript whitespace set; its meaning is stated by `TrimCuts`, `TrimUnchanged` and `TrimPadded` |
| JsText.TrimStartCuts | js/rotate.js:106 | the start-trimmed string is a suffix of the input, everything removed is whitespace, and it does not start with whitespace |
| JsText.TrimEndCuts | js/rotate.js:106 | the end-trimmed string is a prefix of the input, everything removed is whitespace, and it does not end with whitespace |
| JsText.TrimUnchanged | js/rotate.js:106 | a string with no whitespace at either end is left unchanged by `trim()` |
| JsText.TrimStartPadded | js/rotate.js:106 | leading whitespace does not change what `trimStart` leaves |
| JsText.TrimStartAppend | js/rotate.js:106 | text after a non-whitespace character is kept whole by `trimStart` |
| JsText.TrimEndPadded | js/rotate.js:106 | trailing whitespace does not change what `trimEnd` leaves |
| JsText.TrimPadded | js/rotate.js:106 | whitespace added around a string does not change its `trim()` |
| JsText.SplitPieces | js/rotate.js:103 | no piece of `split(sep)` holds the separator, and a string without it splits into itself alone |
| JsText.Split | js/rotate.js:103 | `split` on one character: the pieces between separators, empty pieces included, at least one piece, at least two when the separator occurs; see `SplitPieces`, `JoinSplit`, `SplitJoin`, `SplitCons`, `SplitPrepend` |
| JsText.Join | js/pdf-to-word.js:95 | `join(sep)`: the pieces with `sep` between neighbours; see `JoinSplit`, `SplitJoin` |
| JsText.JoinSplit | js/rotate.js:103 | joining the pieces of `split(sep)` with the separator gives the original string back |
| JsText.SplitJoin | js/rotate.js:103 | splitting a join of separator-free pieces gives the pieces back |
| JsText.SplitCons | js/rotate.js:103 | a separator-free piece, a separator and more text split into that piece followed by the pieces of the rest |
| JsText.SplitPrepend | js/rotate.js:109 | separator-free text put in front of a string becomes part of its first piece; the other pieces are unchanged |
| JsText.DigitPrefixLongest | js/rotate.js:118 | `parseInt` reads the longest run of digits: the prefix is all digits, and it is the whole input or is followed by a non-digit |
| JsText.ParseInt | js/rotate.js:110-118 | `parseInt` without a radix: leading whitespace skipped, an optional sign, a `0x`/`0X` prefix switching to hexadecimal, then the longest digit prefix; no digits gives NaN (`None`); see `DigitPrefixLongest`, `ParseIntOfNatToString`, `LeadingDashToken` |
| JsText.ParseIntOfNatToString | js/rotate.js:118 | `parseInt` of a number's decimal string followed by a non-digit (for example `"2abc"` or `"1.5"`) is that number |
| JsText.DigitsValueOfNatToString | js/rotate.js:118 | the value of the digits of a number's decimal string is that number |
| JsText.NatToStringInjective | js/pdf-to-jpg.js:142 | different numbers have different decimal strings |
| JsText.NatToString | js/pdf-to-jpg.js:142 | a number's decimal string is non-empty, all digits, and has a leading zero only for 0 |
| JsText.IndexOf | js/pdf-to-word.js:122 | `indexOf` finds the first occurrence of the pattern, or reports that it occurs nowhere |
| JsText.ReplaceFirst | js/pdf-to-word.js:122 | `replace` with a string pattern replaces only the first occurrence, and leaves a string without the pattern unchanged |
| JsArray.SetAdd | js/rotate.js:114 | `Set.add` keeps the elements distinct, adds exactly the new value, and keeps the insertion order |
| JsArray.SortAscending | js/rotate.js:125 | the numeric sort returns a permutation (the same multiset) in ascending order, strictly ascending when there are no repeats |
| JsArray.StrictlyAscendingUnique | js/rotate.js:125 | two strictly ascending lists with the same elements are equal, so the sorted result is determined by the set of pages |
| PageRange.Interval | js/rotate.js:113-115 | the integers from `lo` up to but excluding `hi`, as a membership iff |
| PageRange.RangePages | js/rotate.js:113-115 | a clamped range's pages lie in `[0, maxPages)` |
| PageRange.TokenPages | js/rotate.js:105-122 | one token's contribution lies in `[0, maxPages)` |
| PageRange.TokensPages | js/rotate.js:105-123 | the union of the tokens' contributions lies in `[0, maxPages)` |
| PageRange.Resolve | js/rotate.js:101-126 | the pages named by the text lie in `[0, maxPages)`, and none are named when `maxPages` is 0 |
| PageRange.RangeTokenPages | js/rotate.js:108-115 | a range token whose ends both parse contributes exactly the 0-based interval from `max(1,start)-1` to `min(maxPages,end)` |
| PageRange.RangeEnds | js/rotate.js:110 | the two ends of a range token: its first two `-`-separated pieces, each trimmed and read by `parseInt`; pieces after the second are ignored; see `RangeTokenPages`, `RangeNumberToken`, `SpacedDash` |
| PageRange.SkippedRangeToken | js/rotate.js:110-111 | a range token with an end that does not parse contributes nothing |
| PageRange.SingleTokenPages | js/rotate.js:116-121 | a token without `-` contributes `n-1` exactly when it parses to `n` in `1..maxPages`, and nothing otherwise |
| PageRange.SingleNumberToken | js/rotate.js:116-121 | a decimal page number `n` as a token contributes `{n-1}` when `1 <= n <= maxPages`, and nothing otherwise |
| PageRange.RangeNumberToken | js/rotate.js:108-115 | the token `"a-b"` contributes the clamped interval, so an inverted or out-of-bounds range contributes nothing |
| PageRange.LeadingDashToken | js/rotate.js:110-111 | a token starting with `-`, such as `"-3"`, has an empty start and contributes nothing |
| PageRange.BlankToken | js/rotate.js:106-121 | a blank token contributes nothing |
| PageRange.BlankRange | js/rotate.js:101-126 | a range text of white space only names no page |
| PageRange.PaddedToken | js/rotate.js:106 | white space around a token does not change what it contributes |
| PageRange.SpacedDash | js/rotate.js:108-109 | white space on either side of a range's `-` does not change what it contributes: `"a - b"` is `"a-b"` |
| PageRange.PageListRoundTrip | js/rotate.js:101-126 | for every text, writing the resolved pages back as their 1-based numbers joined by commas names the same pages and gives the same list (no pages give the empty text, which names none) |
| PageRange.NumeralToken | js/rotate.js:106-108 | a decimal numeral is unchanged by `trim()` and holds neither `-` nor `,` |
| PageRange.UnionOfBounded | js/rotate.js:105-123 | a union of bounded contributions is bounded |
| PageRange.UnionOfMember | js/rotate.js:105-123 | a page is in the union exactly when some token contributes it |
| PageRange.UnionOfConcat | js/rotate.js:105-123 | the union over two runs of tokens is the union of their unions, since nothing but the set carries over between tokens |
| PageRange.UnionOfSameTokens | js/rotate.js:102-125 | the union depends only on which tokens occur, not on their order or repeats |
| PageRange.SameTokensSamePages | js/rotate.js:102-125 | reordering or repeating tokens selects the same pages |
| PageRange.SkippedTokenIgnored | js/rotate.js:105-123 | a token that contributes nothing can be dropped anywhere without changing the result, so later tokens are still processed |
| PageRange.ResolveJoin | js/rotate.js:103 | comma-joined tokens name the union of the tokens' contributions |
| PageRange.ResolveReordered | js/rotate.js:102-125 | range texts made of the same tokens in another order, or repeated, name the same pages |
| PageRange.FullRange | js/rotate.js:108-115 | `"1-N"` on a document of `N` pages names every page |
| PageRange.Enumerate | js/rotate.js:125 | the members of a set within bounds, listed strictly ascending |
| PageRange.PageList | js/rotate.js:101-126 | the result list is strictly ascending (so it has no repeats), holds exactly the named pages, and each index lies in `[0, maxPages)` |
| PageRange.PageListReordered | js/split.js:141-157 | the list handed on does not depend on the order of the tokens |
| PageRange.ParsePageRange | js/rotate.js:101-126 | the loop over tokens, the `Set` and the sort return exactly `PageList`: strictly ascending, holding exactly the named pages |
| PageRange.AddTokenPages | js/rotate.js:105-122 | one iteration adds exactly the token's contribution to the set and keeps it duplicate-free |
| Pdf.Selection.constructor | js/rotate.js:4-5 | nothing is selected and the page count is 0 |
| Pdf.Selection.HandleFile | js/rotate.js:58-77 | the file is selected; the page count becomes its page count when it loads, and is otherwise left as it was |
| Pdf.Selection.ResetTool | js/rotate.js:226-228 | nothing is selected and the page count is 0 |
| Pdf.ReplacePdfExtension | js/pdf-to-word.js:122 | in `stem.pdf` with no `.pdf` inside the stem, the replacement hits the extension |
| Rotate.AllPages | js/rotate.js:147-148 | "all" gives every 0-based page, in strictly ascending order |
| Rotate.PagesToRotate | js/rotate.js:143-165 | "all" gives `0..n-1`; otherwise blank text fails with "enter page numbers" and only then, text naming no page fails with "no valid pages" and only then; success is strictly ascending and in range; in specific mode it succeeds exactly when the trimmed text is non-blank and names some page, and then it holds exactly those pages |
| Rotate.Rotated | js/rotate.js:172-176 | the target pages get the angle, which replaces their rotation; all other pages and all text stay as they were |
| Rotate.RotateTwice | js/rotate.js:172-176 | rotating the same pages to the same angle twice is the same as once |
| Rotate.ApplyRotation | js/rotate.js:173-176 | the `forEach` over the targets gives exactly `Rotated` |
| Rotate.RotateClick | js/rotate.js:129-186 | no file gives "select a PDF file"; otherwise the errors of `PagesToRotate`, a load failure, or the rotated pages saved as `"rotated-" + name` |
| Rotate.FullRangeIsAll | js/rotate.js:147-157 | typing `"1-N"` for an `N`-page document rotates the same pages as choosing "all" |
| Split.SplitButtonDisabledWhenBlank | js/split.js:90-92 | the split button is disabled exactly when the range text is all whitespace |
| Split.SplitButtonDisabled | js/split.js:91 | the button is disabled when the trimmed text is empty; see `SplitButtonDisabledWhenBlank`, `DisabledButtonMeansNoPageNumbers` |
| Split.DisabledButtonMeansNoPageNumbers | js/split.js:90-92 | the button is disabled exactly when a click would fail for want of page numbers |
| Split.PagesToExtract | js/split.js:129-148 | blank text fails before parsing, and only blank text does; text naming no page fails with "no valid pages", and only then; it succeeds exactly when the trimmed text is non-blank and names some page, and a success is strictly ascending and exactly the named pages |
| Split.SplitClick | js/split.js:123-167 | no file gives an error; otherwise the errors of `PagesToExtract`, a load failure, or a document of exactly the parsed pages in ascending order, saved as `"extracted-pages-" + name` |
| Split.CopyPages | js/split.js:155-157 | `copyPages` then `addPage` for each copy: the pages at the given indices, in that order; its outcome is stated in `SplitClick` |
| Merge.PdfOnly | js/merge.js:54 | the filter keeps only `application/pdf` files and is no longer than its input |
| Merge.PdfOnlyMembers | js/merge.js:30 | the filter keeps exactly the PDF files |
| Merge.PdfOnlyConcat | js/merge.js:53-57 | filtering distributes over concatenation, so adding in two batches equals adding in one |
| Merge.PdfOnlySnoc | js/merge.js:53-57 | one more file is appended exactly when it is a PDF |
| Merge.PdfOnlyIdempotent | js/merge.js:30-32 | filtering the already-filtered drop again in `addFiles` keeps the same files |
| Merge.PdfOnlyAllPdf | js/merge.js:53-57 | a list of PDFs passes the filter unchanged |
| Merge.SpliceOne | js/merge.js:86 | `splice(index, 1)` with `0 <= index < n` removes exactly that element, keeps the order of the rest, and shortens the list by one; an index past the end removes nothing |
| Merge.SpliceOneUndo | js/merge.js:86 | putting the removed file back at its index restores the list |
| Merge.MergedPagesFails | js/merge.js:113-119 | the merge fails exactly when some file fails to load |
| Merge.MergedPages | js/merge.js:110-120 | the merged document: the pages of every file, file after file, or `None` when one of them does not load; see `MergedPagesFails`, `MergedPagesConcat`, `MergeTool.MergeClick` |
| Merge.MergedPagesConcat | js/merge.js:113-119 | merging two runs of files gives their merged pages one after the other |
| Merge.MergeTool.constructor | js/merge.js:4 | the list starts empty |
| Merge.MergeTool.AddFiles | js/merge.js:52-57 | appends, in input order, exactly the PDF files; existing entries are unchanged; only PDFs are ever in the list |
| Merge.MergeTool.Drop | js/merge.js:26-36 | a drop with no PDF is refused and leaves the list unchanged; otherwise exactly its PDFs are appended |
| Merge.MergeTool.RemoveFile | js/merge.js:85-86 | the new list is `splice(index, 1)` of the old one |
| Merge.MergeTool.ResetTool | js/merge.js:166-167 | the list is empty |
| Merge.MergeTool.MergeClick | js/merge.js:98-130 | fewer than two files fail with an error, and that error happens exactly when the button is disabled; otherwise the result is the pages of all files in list order, saved as `merged-document.pdf`, or a failure when some file does not load |
| Merge.MergeTool.MergeButtonDisabled | js/merge.js:93-95 | the merge button is disabled when fewer than two files are listed; `MergeTool.MergeClick` refuses exactly then |
| PdfToJpg.PagesToConvert | js/pdf-to-jpg.js:107-109 | "all" gives `1..numPages`, strictly ascending; otherwise exactly `[1]` |
| PdfToJpg.BaseNameOfPdf | js/pdf-to-jpg.js:140-142 | the base name of `stem.pdf` is the stem |
| PdfToJpg.BaseName | js/pdf-to-jpg.js:141-142 | `name.replace('.pdf', '')`; see `BaseNameOfPdf` |
| PdfToJpg.ImageName | js/pdf-to-jpg.js:140-142 | `base.jpg` when one page is converted, otherwise `base_page_N.jpg`; see `ImageNamesDistinct`, `DownloadName` |
| PdfToJpg.Entries | js/pdf-to-jpg.js:144 | the zip after `zip.file(name, image)` for each page in turn, a later entry replacing an earlier one of the same name; see `EntriesOnePerPage`, `ZipOfAllPages` |
| PdfToJpg.ImageNamesDistinct | js/pdf-to-jpg.js:140-144 | with several pages, different pages get different entry names |
| PdfToJpg.EntriesOnePerPage | js/pdf-to-jpg.js:144 | when names do not collide, the zip holds one entry per page, named for it and holding it, and nothing else |
| PdfToJpg.AllImageNamesDistinct | js/pdf-to-jpg.js:140-144 | all pages of a document of two or more pages get pairwise different names |
| PdfToJpg.ZipOfAllPages | js/pdf-to-jpg.js:115-145 | for `n >= 2` pages the zip has exactly `n` entries: `base_page_p.jpg` holds page `p`, and there are no other entries |
| PdfToJpg.DownloadName | js/pdf-to-jpg.js:150-158 | one page downloads under its own image name (`base.jpg`); otherwise the zip name, which is no image's name |
| PdfToJpg.ConvertClick | js/pdf-to-jpg.js:88-158 | no file gives an error; a load failure, or asking for the first page of an empty document, fails; one page gives the single image of page 1; otherwise the zip of all pages under their names |
| PdfToWord.PageTextItems | js/pdf-to-word.js:95 | text items without spaces can be read back by splitting the page text on spaces |
| PdfToWord.PageText | js/pdf-to-word.js:95 | a page's item strings joined by single spaces; see `PageTextItems` |
| PdfToWord.DocumentText | js/pdf-to-word.js:86-97 | each page's text followed by a blank line, page after page; see `DocumentTextLength`, `DocumentTextConcat`, `DocumentTextAt`, `ExtractText` |
| PdfToWord.DocumentTextLength | js/pdf-to-word.js:86-97 | zero pages give the empty text, and only zero pages do; each page adds at least its blank line |
| PdfToWord.DocumentTextConcat | js/pdf-to-word.js:90-97 | the text of two runs of pages is one text after the other |
| PdfToWord.DocumentTextAt | js/pdf-to-word.js:95-96 | each page's text, then a blank line, sits between the text of the pages before it and the text of the pages after it |
| PdfToWord.ExtractText | js/pdf-to-word.js:86-97 | the loop over pages `1..n` with `+=` builds exactly `DocumentText` |
| PdfToWord.WordNameOfPdf | js/pdf-to-word.js:122 | `stem.pdf` becomes `stem.docx`; a name without `.pdf` is unchanged |
| PdfToWord.WordName | js/pdf-to-word.js:122 | `name.replace('.pdf', '.docx')`; see `WordNameOfPdf` |
| PdfToWord.WordTool.constructor | js/pdf-to-word.js:2 | nothing is selected |
| PdfToWord.WordTool.HandleFile | js/pdf-to-word.js:52-53 | the file becomes the selection |
| PdfToWord.WordTool.ResetTool | js/pdf-to-word.js:155-156 | nothing is selected |
| PdfToWord.WordTool.ConvertClick | js/pdf-to-word.js:71-123 | no file gives an error; a load failure fails; otherwise the document text under the name with `.pdf` replaced by `.docx` |

## Left out

- DOM access, event wiring, status messages, button labels and the file-list display are UI. Only the enabled or disabled state of the split and merge buttons is modelled.
- The PDF libraries (PDFLib, pdf.js), JSZip, docx and `saveAs` are foreign code. A file's loaded pages are an input. Saving, copying pages, rendering and generating the zip are represented by the values they would carry.
- `async`/`await` ordering and the `setTimeout` reset after a download are event-loop concurrency. The reset itself is modelled as `ResetTool`.
- js/compress.js is not part of this model. Its size formatting and percentages use floating point, and its compression is a library call.
- The JPG quality scale, canvas sizing and JPEG encoding are floating point and rendering.
- Strings are sequences of code points, not UTF-16 code units. Numbers are unbounded integers, so `parseInt`'s loss of precision on very long digit strings is not modelled. The `0x` hexadecimal prefix is modelled in full.
- The drop handlers of the rotate, split, PDF-to-JPG and PDF-to-Word tools (the last at js/pdf-to-word.js:24-34) only pass the first file to `handleFile`, when it is a PDF, and they are not modelled separately. The PDF-to-JPG `handleFile` (js/pdf-to-jpg.js:55-74) does the same as `Pdf.Selection.HandleFile`.
- js/split.js:95-120 is a verbatim copy of js/rotate.js:101-126, so both tools use the single `PageRange.ParsePageRange`. The split tool's `handleFile` and `resetTool` (js/split.js:58-76, 207-216) are `Pdf.Selection.HandleFile` and `Pdf.Selection.ResetTool`.
- Rotate.RotateClick and Split.SplitClick require `Selection.Valid()`: the page count is that of the selected file whenever that file loads. `handleFile` sets `selectedFile` (js/rotate.js:59, js/split.js:59) and only updates `totalPagesCount` after the load has been awaited (line 65 of each). A click in that window works with the previous count (0 at start or after `resetTool`). Depending on the new file's length, such a click can act on the wrong pages ("all" rotates only as many pages as the old count, js/rotate.js:148), report "no valid pages" (a count of 0 names no page, js/rotate.js:157-160, js/split.js:143-144), or end in the catch branch when a target lies past the new file's last page (js/rotate.js:174-175, js/split.js:156). That window arises only from the event-loop interleaving left out above, so the model does not include it.
- JSZip turns a `/` in an entry name into folders. This is not modelled. Browser file names hold no `/`.
- Split.CopyPages has no contract of its own. What it produces is stated in `Split.SplitClick`.

# PDF→Word converter: link aggregation, naming and packaging

This project is a Dafny model of the core of a small PDF→Word web converter (`app.py`). The model covers the following:

- **Links.** It collects the hyperlinks of a PDF: annotation URIs first, then URL matches in each page's text. It strips trailing punctuation from each link and removes duplicates, keeping the order in which links were first seen.
- **Link page.** It appends a "Daftar Link" page to the converted document, but only when there are links.
- **Naming.** It names the output after the upload: `<base_name>.docx`.
- **Input dispatch.** It accepts three input shapes (a stream, a dict with `name`, or a path string).
- **Packaging.** A batch with one output is delivered as that output. A batch with several outputs is delivered as `converted_docs.zip`.
- **Download button.** The button is disabled until a conversion succeeds, and is reset whenever the uploads change.

The external libraries are parameters of the model:

- The layout converter and the PDF reader are the functions `layout` and `readPages` of `Conversion.Env`.
- The file system is a map from paths to bytes.
- Each call to `tempfile.mkdtemp` is a function `tempDir: nat -> string`. Its k-th value is the directory made for the k-th upload; the value at the batch size is the zip directory.

Modules, in dependency order:

- `Wrappers`: `Option` and `Result`.
- `UrlPattern`: the pattern `https?://[^\s<>"'\)\]]+` and a hand-written scanner with `findall` semantics (leftmost, greedy, non-overlapping matches).
- `TrailingStrip`: `rstrip('.,;:)]')`.
- `LinkExtractor`: the page loop (`ExtractLinks`) and its specification `Links`.
- `LinkPage`: the document as a sequence of blocks, and the link-list page.
- `PosixPath`: `basename`, `splitext` and `join` as `posixpath` defines them.
- `Naming`: `base_name` and the `.docx` name.
- `InputDispatch`: the input shapes, the error kinds, and reading the input.
- `Conversion`: `convert_pdf_to_word`. `Convert` is the intended specification and `ConvertAsWritten` is the code as written (see Findings). `ConvertPdfToWord` is the method.
- `Packaging`: the batch comprehension, the one-or-zip choice, and the zip loop.
- `DownloadControl`: the button state and the event sequence.

`\s` is the set of characters for which Python's `str.isspace` holds. A `str` pattern matches exactly those.

## Model

| member | source | states |
|---|---|---|
| UrlPattern.IsSpace | app.py:9 | definition of `\s` as Python's `str.isspace`; properties in UrlPattern.RunEnd, UrlPattern.FindAllShape |
| UrlPattern.Excluded | app.py:9 | definition of the rejected characters of `[^\s<>"'\)\]]`; properties in UrlPattern.RunEnd, UrlPattern.FindAllShape |
| UrlPattern.IsMatch | app.py:9 | definition of a match from s to e in the declarative sense; properties in UrlPattern.MatchAtSound, UrlPattern.MatchAtExact, UrlPattern.MatchText |
| UrlPattern.SchemeLength | app.py:9 | the scheme `https?://` found at a position is `http://` (7 characters) or `https://` (8), exactly when that literal starts there, and 0 otherwise |
| UrlPattern.SchemesDisjoint | app.py:9 | `http://` and `https://` never both start at one position, so the optional `s` leaves no ambiguity |
| UrlPattern.RunEnd | app.py:9 | the greedy `[^…]+` run stays in bounds, holds only accepted characters, and stops at a rejected character or the end of the text |
| UrlPattern.RunEndIsFirstRejected | app.py:9 | any run of accepted characters that ends at a rejected character or the end of the text ends where the greedy run ends |
| UrlPattern.MatchAt | app.py:9 | a match found at position i is non-empty and lies inside the text |
| UrlPattern.MatchAtSound | app.py:9 | a match found at i is a match in the declarative sense: a scheme, at least one accepted character, and maximal |
| UrlPattern.MatchAtExact | app.py:9 | the scanner finds a match at i ending at e if and only if the declarative reading says there is one |
| UrlPattern.MatchEndUnique | app.py:9 | greediness leaves each match start a single possible end |
| UrlPattern.FindSpans | app.py:62 | the reported spans are matches, start no earlier than the resume point, are in text order and do not overlap |
| UrlPattern.FindSpansCovers | app.py:62 | leftmost: every match that starts at or after the resume point starts inside a reported span |
| UrlPattern.FindSpansIsLeftmostScan | app.py:62 | the scanner's output is a leftmost, greedy, non-overlapping scan |
| UrlPattern.FirstSpanIsLeftmost | app.py:62 | in such a scan, the first span starts no later than any match |
| UrlPattern.LeftmostScanTail | app.py:62 | dropping the first span leaves a leftmost scan resumed at its end |
| UrlPattern.LeftmostScanHead | app.py:62 | two leftmost scans from one position agree on their first span |
| UrlPattern.LeftmostScanUnique | app.py:62 | there is only one leftmost scan |
| UrlPattern.FindSpansCharacterized | app.py:62 | a span list is a leftmost scan of the text if and only if it is what the scanner returns, so the scanner computes exactly `findall`'s matches |
| UrlPattern.Substrings | app.py:62 | definition of the strings `findall` returns for a list of spans, the text of each span in order; properties in UrlPattern.FindAllShape, UrlPattern.OnlyMatchFindAll |
| UrlPattern.FindAll | app.py:62 | definition of `URL_PATTERN.findall(text)` as the texts of the scanner's spans; properties in UrlPattern.FindSpansCharacterized, UrlPattern.FindAllShape |
| UrlPattern.FindAllShape | app.py:9 | every match is the text of the scanner's span at the same index, starts with `http://` or `https://`, is longer than its scheme, holds no whitespace, `<`, `>`, `"`, `'`, `)` or `]` after the scheme, and is followed by a rejected character or the end of the text |
| UrlPattern.MatchText | app.py:9 | the text of a declarative match starts with a scheme followed by at least one accepted character and nothing else |
| UrlPattern.MatchStartsAtH | app.py:9 | a match starts at an `h` with room for `http://` before the end of the text |
| UrlPattern.OnlyMatchFindAll | app.py:62 | a text whose only match start is s has exactly that one match: one span, and `findall` gives its text |
| UrlPattern.SampleTextMatch | app.py:9 | in `see http://example.com).`, positions 4 to 22 (`http://example.com`) are a match; the `)` after it is rejected |
| UrlPattern.SampleTextMatchStart | app.py:9 | every match of `see http://example.com).` starts at position 4 |
| UrlPattern.SampleTextFindAll | app.py:62 | `findall` on `see http://example.com).` reports the single span 4 to 22 and gives `["http://example.com"]`, without the `)` |
| TrailingStrip.RStrip | app.py:58 | the result is a prefix of the input, does not end in `.,;:)]`, and only those characters were removed |
| TrailingStrip.RStripIdempotent | app.py:63 | stripping twice gives the same result as stripping once |
| TrailingStrip.RStripFixesClean | app.py:63 | the strip leaves a string unchanged if and only if it does not end in a strip character |
| TrailingStrip.RStripUnique | app.py:63 | the prefix, clean-end and nothing-else-removed properties determine the result of `rstrip` completely |
| LinkExtractor.Truthy | app.py:57 | definition of `if uri:`, false for a missing or empty URI; properties in LinkExtractor.AnnotCandidatesExact |
| LinkExtractor.AnnotCandidates | app.py:55-58 | definition of the stripped truthy URIs of a page, in order; properties in LinkExtractor.AnnotCandidatesExact, LinkExtractor.AddAnnotationLinks |
| LinkExtractor.AddUnique | app.py:59-60 | definition of `if u not in links: links.append(u)`; properties in LinkExtractor.AddAllProperties |
| LinkExtractor.AddAll | app.py:59-65 | definition of adding a run of candidates one by one; properties in LinkExtractor.AddAllConcat, LinkExtractor.AddAllProperties, LinkExtractor.AddAllFirstSeenOrder |
| LinkExtractor.Links | app.py:52-66 | definition of the extracted link list; properties in LinkExtractor.LinksSoundAndComplete, LinkExtractor.LinksNoDuplicates, LinkExtractor.LinksFirstSeenOrder, LinkExtractor.LinksStripped |
| LinkExtractor.StripAll | app.py:62-63 | definition of stripping each match in order; properties in LinkExtractor.StripAllExact |
| LinkExtractor.TextCandidates | app.py:61-63 | definition of a page text's candidates, the stripped `findall` matches in order; properties in LinkExtractor.StripAllExact, LinkExtractor.AddTextLinks |
| LinkExtractor.PageCandidates | app.py:55-65 | definition of a page's candidates, its annotation URIs before its text matches; properties in LinkExtractor.PageCandidatesExact, LinkExtractor.LinksOfNextPage |
| LinkExtractor.Flatten | app.py:54 | definition of concatenating each page's contribution in page order; properties in LinkExtractor.FlattenExact, LinkExtractor.FlattenConcat |
| LinkExtractor.Candidates | app.py:54-65 | definition of the document's candidate stream, page after page; properties in LinkExtractor.CandidatesExact, LinkExtractor.LinksFirstSeenOrder |
| LinkExtractor.ExtractLinks | app.py:52-66 | the list the page loop builds is `Links(pages)` and holds no duplicates |
| LinkExtractor.AddAnnotationLinks | app.py:55-60 | the annotation loop adds the stripped truthy URIs, in order, each only when not yet present |
| LinkExtractor.AddTextLinks | app.py:61-65 | the text loop adds the stripped `findall` matches, in order, each only when not yet present |
| LinkExtractor.LinksAfterPage | app.py:54-65 | one outer iteration extends the links of the earlier pages by that page's annotations, then its text |
| LinkExtractor.AddAllConcat | app.py:59-65 | adding two candidate runs one after the other is the same as adding their concatenation |
| LinkExtractor.AddAllProperties | app.py:59-65 | membership-test-then-append keeps the old list as a prefix, contains exactly the old entries and the candidates, and never adds a duplicate |
| LinkExtractor.LinksNoDuplicates | app.py:59-65 | the extracted list never holds the same string twice |
| LinkExtractor.AddAllFirstSeenOrder | app.py:59-65 | each added string comes from the candidates, and the list is ordered by each string's first position among the candidates |
| LinkExtractor.LinksFirstSeenOrder | app.py:54-65 | every link is a candidate, and links are ordered by first occurrence in the stream that visits pages in order, annotations before text |
| LinkExtractor.AnnotCandidatesExact | app.py:55-58 | a string is an annotation candidate exactly when it is the strip of a non-empty URI; missing and empty URIs are skipped before stripping |
| LinkExtractor.StripAllExact | app.py:62-63 | a string is a text candidate exactly when it is the strip of some match |
| LinkExtractor.PageCandidatesExact | app.py:55-65 | a page's candidates are exactly the strips of its non-empty URIs and of its text's matches |
| LinkExtractor.CandidatesExact | app.py:54-65 | the document's candidates are exactly those of its pages |
| LinkExtractor.LinksSoundAndComplete | app.py:52-66 | a string is in `links` if and only if some page has a non-empty annotation URI or a text match that strips to it; a URI that strips to `""` is therefore still added |
| LinkExtractor.LinksStripped | app.py:58 | no link ends in `.`, `,`, `;`, `:`, `)` or `]`, and stripping a link again changes nothing |
| LinkExtractor.LinksOfEarlierPagesComeFirst | app.py:54 | pages are processed in order: the links of the first pages are a prefix of the links of the whole document |
| LinkExtractor.LinksOfNextPage | app.py:55-65 | within a page, its annotation URIs are added before its text matches |
| LinkExtractor.FirstIndex | app.py:59 | the index returned is the first occurrence of the string |
| LinkExtractor.OneMatchPageLinks | app.py:52-66 | a page without annotations whose text has one match with a clean end gives exactly that match as its candidates and as its links |
| LinkExtractor.SampleTextLinks | app.py:61-65 | a page without annotations whose text is `see http://example.com).` gives the single link `http://example.com`: the match stops before `)`, so the strip removes nothing |
| LinkPage.Paragraphs | app.py:73-74 | definition of one paragraph per link, in order; properties in LinkPage.ParagraphsAt |
| LinkPage.LinkListPage | app.py:71-74 | definition of the page break, the level-2 heading "Daftar Link" and the paragraphs; properties in LinkPage.LinkPageLayout |
| LinkPage.WithLinkPage | app.py:69-75 | definition of the document with the link page added when there are links; properties in LinkPage.LinkPageAddedIffLinks, LinkPage.LinkPageLayout |
| LinkPage.AppendLinkList | app.py:69-75 | the page break, then the heading, then one paragraph per link in a loop, gives `WithLinkPage(doc, links)` |
| LinkPage.ParagraphsAt | app.py:73-74 | one paragraph per link, the k-th holding the k-th link |
| LinkPage.LinkPageAddedIffLinks | app.py:69 | the document changes if and only if there are links; with none, not even a page break is added |
| LinkPage.LinkPageLayout | app.py:69-75 | with links, the original content is kept, followed by a page break, the level-2 heading "Daftar Link" and one paragraph per link in order, and nothing else |
| PosixPath.Basename | app.py:32 | definition of `os.path.basename`; properties in PosixPath.BasenameShape, PosixPath.BasenameOfName, PosixPath.BasenameOfJoin |
| PosixPath.SplitExt | app.py:32 | definition of `os.path.splitext`; properties in PosixPath.SplitExtConcat, PosixPath.SplitExtExtension, PosixPath.SplitExtOfName |
| PosixPath.Join | app.py:35 | definition of `os.path.join` for one component, an absolute one replacing the directory; properties in PosixPath.BasenameOfJoin, Conversion.JoinInjective |
| PosixPath.RFind | app.py:32 | the index found is the last occurrence of the character, or -1 when it does not occur |
| PosixPath.BasenameShape | app.py:32 | the basename holds no `/`, and the path is its directory part (empty or ending in `/`) followed by the basename |
| PosixPath.BasenameOfName | app.py:99 | a `/`-free name is its own basename |
| PosixPath.BasenameOfJoin | app.py:78 | joining a non-empty `/`-free name onto a directory gives a path whose basename is that name |
| PosixPath.SplitExtConcat | app.py:32 | `splitext` cuts the path in two: root + ext is the path |
| PosixPath.SplitExtExtension | app.py:32 | a non-empty extension starts with `.` and holds no other `.` and no `/` |
| PosixPath.SplitExtOfName | app.py:32 | a `/`-free name has an extension exactly when some `.` follows a character other than `.`, so leading dots never start an extension |
| Naming.BaseName | app.py:32 | definition of `base_name`; properties in Naming.BaseNameShape, Naming.BaseNameOfStemAndExtension |
| Naming.DocxName | app.py:78 | definition of `f"{base_name}.docx"`; properties in Naming.DocxNameShape, Naming.DocxNameSplitsBack, Naming.SampleNames |
| Naming.BaseNameShape | app.py:32 | `base_name` is a `/`-free prefix of the upload's basename |
| Naming.DocxNameShape | app.py:78 | the output name holds no `/`, is not empty and ends in `.docx` |
| Naming.DocxNameSplitsBack | app.py:32 | splitting the output name gives back `base_name` and `.docx` if and only if `base_name` has a character other than `.` |
| Naming.SplitsBackWhenNotAllDots | app.py:32 | when `base_name` has a character other than `.`, splitting the output name gives `base_name` and `.docx` |
| Naming.NotAllDotsWhenSplitsBack | app.py:32 | when splitting the output name gives `base_name` and `.docx`, `base_name` has a character other than `.` |
| Naming.BaseNameOfStemAndExtension | app.py:32 | a `/`-free name made of a stem with a character other than `.` and a one-dot extension has that stem as `base_name`, and `<stem>.docx` as its output name |
| Naming.PdfOutputName | app.py:32 | `<stem>.pdf` becomes `<stem>.docx` for a stem with no `/` and no `.` |
| Naming.SampleNames | app.py:78 | `report.pdf` becomes `report.docx`; `a.pdf` and `b.pdf` become `a.docx` and `b.docx` |
| Naming.OutputPdfName | app.py:21 | the default name `output.pdf` becomes `output.docx` |
| InputDispatch.ReadFile | app.py:23-28 | definition of `open(path, 'rb').read()` on the file system map, failing when the file is missing; properties in InputDispatch.ReadInputOutcome |
| InputDispatch.ReadInput | app.py:19-31 | definition of the input dispatch; properties in InputDispatch.UnsupportedExactly, InputDispatch.ReadInputOutcome |
| InputDispatch.UnsupportedExactly | app.py:19-31 | an input fails with "Unsupported input type" if and only if it is not a stream, a dict with `name`, or a string; a dict without `name` is unsupported |
| InputDispatch.ReadInputOutcome | app.py:19-31 | a stream yields its bytes and its name (by default `output.pdf`); a dict or string path yields the file's bytes and the path as name, or the file-not-found error |
| Conversion.ConvertAsWritten | app.py:16-80 | definition of the conversion as written, with the same-file check of the final copy; properties in Conversion.AsWrittenAgreesElsewhere, Conversion.AsWrittenFailsOnNamelessStream |
| Conversion.Convert | app.py:16-80 | definition of the intended conversion; properties in Conversion.ConvertFailsOnlyOnInputOrLayout, Conversion.ConvertResult, Conversion.ConvertPdfToWord |
| Conversion.ConvertPdfToWord | app.py:16-80 | the steps as they run (dispatch, base name, layout conversion, link extraction, link page, final path) compute `Convert` |
| Conversion.ConvertFailsOnlyOnInputOrLayout | app.py:19-43 | a conversion fails exactly when the input cannot be read or the layout converter fails, and a read error is passed on unchanged |
| Conversion.ConvertResult | app.py:40-80 | a successful conversion's path has the output name as its basename, and the document there is the converted layout followed by the link page for the PDF's links |
| Conversion.JoinInjective | app.py:78 | in one directory, different output names give different paths |
| Conversion.AsWrittenAgreesElsewhere | app.py:78-79 | the written code and the intended one agree on every input whose base name is not `output` |
| Conversion.AsWrittenFailsOnNamelessStream | app.py:79 | the written code fails with SameFileError on a stream without a name, which the intended conversion accepts |
| Packaging.ZipEntries | app.py:98-99 | definition of the archive entries, one per output under its basename; properties in Packaging.PackageCases |
| Packaging.Package | app.py:94-102 | definition of the one-or-zip choice; properties in Packaging.PackageCases, Packaging.PackageOutputs |
| Packaging.ZipArchive.constructor | app.py:97 | a new archive has the given path and no entries |
| Packaging.ZipArchive.Write | app.py:99 | writing appends exactly one entry, stored under the given name, and changes nothing else |
| Packaging.PackageOutputs | app.py:94-102 | the choice with the zip written entry by entry computes `Package` |
| Packaging.PackageCases | app.py:94-102 | no output is an IndexError, exactly one output is returned as it is, and several give `converted_docs.zip` with one entry per output in order, each under its basename |
| Packaging.Collect | app.py:92 | definition of evaluating the comprehension, which stops at the first exception; properties in Packaging.CollectExact, Packaging.CollectStopsAtError |
| Packaging.ConvertAll | app.py:92 | definition of `out_paths`' conversions; properties in Packaging.ConvertAllExact |
| Packaging.ConvertAndPackage | app.py:86-102 | definition of `convert_and_enable`'s result; properties in Packaging.ArchiveNamedAfterUploads, Packaging.SingleUploadDeliveredAsIs, Packaging.BatchFailures, Packaging.ConvertAndEnable |
| Packaging.Outcomes | app.py:92 | definition of the outcome of each upload's conversion, in upload order; properties in Packaging.ConvertAllExact, Packaging.ArchiveNamedAfterUploads |
| Packaging.CollectStopsAtError | app.py:92 | once an earlier conversion fails, the whole batch fails with that error |
| Packaging.CollectExact | app.py:92 | evaluating the comprehension succeeds exactly when every element does, keeps the k-th value at position k, and otherwise fails with the first failure |
| Packaging.ConvertAllExact | app.py:92 | the batch succeeds exactly when every upload converts in its own directory; the k-th output is the k-th conversion; otherwise the error is that of the first failing upload |
| Packaging.ConvertAndEnable | app.py:86-102 | converting in a loop, then packaging, computes `ConvertAndPackage` |
| Packaging.ArchiveNamedAfterUploads | app.py:92-100 | several uploads that all convert give the archive in the zip directory, whose k-th entry is the k-th output stored as the k-th upload's `<base_name>.docx` |
| Packaging.SingleUploadDeliveredAsIs | app.py:102 | one upload that converts is delivered as its own `.docx` path |
| Packaging.ArchiveBasename | app.py:96 | the archive path in any zip directory has `converted_docs.zip` as its basename |
| Packaging.PathConverts | app.py:26-29 | an uploaded path whose bytes have a layout is read with the path as its name and converts |
| Packaging.SinglePathUpload | app.py:92-102 | one uploaded path that converts is delivered as a single file whose basename is the path's `<base_name>.docx` |
| Packaging.TwoUploads | app.py:92-100 | two uploads that convert are delivered as the archive in the zip directory, with two entries named after the first and the second upload |
| Packaging.TwoPathUploads | app.py:92-100 | two uploaded paths that convert give `converted_docs.zip` with two entries, named `<base_name>.docx` of the first path and then of the second |
| Packaging.BatchFailures | app.py:92-102 | an empty batch fails with IndexError, and a batch with a failing conversion fails |
| Packaging.Paths | app.py:92 | definition of `out_paths` from the conversions' results; properties in Packaging.ArchiveNamedAfterUploads, Packaging.ConvertAndEnable |
| DownloadControl.ResetDownload | app.py:104-108 | reset returns the button to its initial state, no value and not interactive, whatever the uploads are |
| DownloadControl.EnableFor | app.py:100-102 | after a successful conversion the button is interactive and offers the delivered `.docx` or archive |
| DownloadControl.Step | app.py:144-155 | definition of one event: an upload change resets the button, a successful conversion enables it on its file, a failed one changes nothing; properties in DownloadControl.RunLastEffective, DownloadControl.FilesChangedDisables |
| DownloadControl.Run | app.py:134-155 | definition of the button state after a sequence of events, starting disabled; properties in DownloadControl.RunTwoStates, DownloadControl.RunLastEffective, DownloadControl.EnabledOnlyAfterConversion |
| DownloadControl.RunTwoStates | app.py:134-155 | after any event sequence the button is either disabled with no value or enabled on a file; it is interactive exactly when it has a value |
| DownloadControl.RunLastEffective | app.py:144-155 | the state is set by the last upload change or successful conversion: a change leaves it disabled, a conversion leaves it enabled on its file, and with neither it is as created |
| DownloadControl.EnabledOnlyAfterConversion | app.py:144-155 | an enabled button offers the file of a successful conversion clicked after the last upload change |
| DownloadControl.FilesChangedDisables | app.py:144-148 | changing the uploads always disables the button |
| DownloadControl.ConvertAfterChangeOffersOutput | app.py:144-155 | a successful conversion clicked right after an upload change leaves the button enabled on the delivered file, whatever happened before |
| DownloadControl.ReportUploadOffersReportDocx | app.py:151-155 | after uploading `report.pdf` and converting, the button offers a single file named `report.docx` |
| DownloadControl.TwoUploadsOfferArchive | app.py:151-155 | after uploading `a.pdf` and `b.pdf` and converting, the button offers `converted_docs.zip` with the entries `a.docx` and `b.docx` in that order |

## Left out

- The layout conversion by `pdf2docx.Converter` (app.py:41-43) is an external library. It is the parameter `Env.layout`, and `None` stands for a raised exception.
- PDF parsing by `fitz`: opening the document, `page.annots()`, `annot.info.get('uri')` and `page.get_text('text')` (app.py:53-56, 61). The reader is the parameter `Env.readPages`, which gives each page's optional URI strings and its text. The model does not decide which annotations carry a `uri` key.
- Table styling with `'Table Grid'` (app.py:46-49) is a python-docx call and is not modelled. A table is a block that the model carries unchanged.
- The python-docx open, save, heading and paragraph calls (app.py:70-75) are not modelled. The document is modelled as its sequence of blocks.
- File and directory I/O is not modelled beyond the following:
  - `mkdtemp` is the parameter `tempDir`.
  - Writing `input.pdf` and reading files are a map lookup.
  - `shutil.copy` is modelled only through its same-file check.
  - The zip byte format is left out; an archive is modelled as its list of entries.
- Two outputs with the same basename give two entries with the same name, and the model keeps both. How `zipfile` treats such a duplicate is not modelled.
- The Gradio layout, CSS, `demo.launch`, and the way Gradio reports an exception (app.py:110-160) are not modelled. A failed conversion leaves the button unchanged.
- A dict record's `name` value may be any Python value. The model only takes string values, and `Record` keeps the dict's string entries.
- Objects that have a `read` attribute but are not byte streams, and `getattr` on an attribute that exists but is not a string, are not modelled. A stream's name is optional and is a string.
- The general regular-expression engine is not modelled. Only the one fixed pattern is scanned by hand.
- The final copy (app.py:79) is modelled by its same-file check only. The method and the batch use the intended behaviour, without SameFileError (see Findings).

## Findings

| source | as written | input that shows it | evidently intended | confidence | as-written member | corrected member |
|---|---|---|---|---|---|---|
| app.py:40, app.py:78-79 | `shutil.copy(temp_docx, final_path)` with `temp_docx = join(workdir, 'output.docx')` raises SameFileError whenever `base_name` is `output`, because the two paths are then the same file | a stream with no `name` attribute (its name defaults to `output.pdf`, app.py:21), or an upload named `output.pdf` | the document is returned as `<workdir>/output.docx` like any other name | not executed | Conversion.AsWrittenFailsOnNamelessStream | Conversion.ConvertResult |

# Citation-metadata enrichment, modelled in Dafny

This project models the citation engine of a retrieval-augmented question
answering system over annual reports (10-K filings).

Each chunk stored in the vector index carries a piece of HTML-ish text. The
enrichment script works out the filing page and section that the text came
from, and writes them back into the chunk's metadata:

1. It picks the longest tag-free fragment of the chunk text.
2. It normalises the whitespace of the fragment and of the filing's text.
3. It finds the fragment in the filing. It tries an exact substring first,
   then the longest run of leading words that does occur.
4. It reads the page from the last `--- PAGE N ---` marker before the hit.
5. It looks up the section table by that page.
6. It composes the metadata updates and writes them to the index.

At question time, the retrieval graph does two things:

- it restricts the search to the filings of the companies a question
  mentions;
- it renders each retrieved document as an XML block that ends in a
  citation, `[Citation: Page N, section from file]`.

The modules follow the source:

| module | what it models |
|---|---|
| `PyText` | the Python string operations the scripts use: `clean_text`, `strip`, `split`, `join`, `in`/`find` |
| `Decimal`, `PyValue` | rendering and parsing decimal numbers; metadata values with their truthiness and `str()` |
| `PageMarkers` | the page-marked document text and `extract_page_number` |
| `Sections` | `find_section_for_page` and `format_section_info` |
| `FragmentSelector` | `get_longest_text_fragment` |
| `Locator` | the matching step that `find_fragment_in_pdf` shares in both scripts |
| `FindParagraph` | the earlier script's `find_fragment_in_pdf` |
| `Enrich` | the result of a lookup, the metadata updates, the index, `process_chunk`, chunk selection and batch processing |
| `CompanyFilter` | `detect_companies` |
| `Citations` | `get_message_text`, `_format_doc` and `format_docs` |

Whitespace is exactly the set of characters for which Python's `str.isspace`
holds. This is the set that `\s`, `split()` and `strip()` all use.

The PDF, the section table and the index are inputs to the model:

- the PDF is given as the text of each page, or as a missing or unreadable
  file;
- the section table is a list of rows;
- the index is an object that keeps a log of the updates it accepted, plus a
  set of chunk ids whose updates it refuses.

## Model

| member | source | states |
|---|---|---|
| `PyText.Strip` | src/retrieval_graph/utils.py:46 | `str.strip()`: the text between the first and the last non-whitespace character, or "" when there is none; see StripEmptyIff, StripShape, StripUnpadded, StripWords, StripKeepsInner |
| `PyText.Collapse` | pinecone/enrich_chunk_metadata.py:38 | `re.sub(r'\s+', ' ', s)`: `CollapseFrom` from the start of the text; see CollapseFrom, CollapseAllSpace, CollapseWords, CollapseAppend, CollapseAround |
| `PyText.CleanText` | pinecone/enrich_chunk_metadata.py:36-38 | `clean_text(text)`: `Strip` of `Collapse`; the same helper is pinecone/find_paragraph.py:11-13; see CleanTextIsNormal, CleanTextIdempotent, CleanTextEmptyIff, CleanTextWords, NormalSurvivesClean |
| `PyText.CollapseFrom` | pinecone/enrich_chunk_metadata.py:38 | `re.sub(r'\s+', ' ', ...)` is empty exactly when its input is, starts with whitespace exactly when its input does, and leaves no whitespace except single spaces each followed by a non-space |
| `PyText.CleanTextIsNormal` | pinecone/enrich_chunk_metadata.py:36-38 | `clean_text` output has no whitespace at either end and no two adjacent whitespace characters |
| `PyText.CleanTextIdempotent` | pinecone/enrich_chunk_metadata.py:36-38 | applying `clean_text` twice is the same as applying it once |
| `PyText.NormalIsFixed` | pinecone/find_paragraph.py:11-13 | text already in normal form is returned unchanged |
| `PyText.CleanTextEmptyIff` | pinecone/find_paragraph.py:11-13 | the result is empty exactly when the input is all whitespace |
| `PyText.CollapseAllSpace` | pinecone/enrich_chunk_metadata.py:38 | collapsed text is all whitespace exactly when its input is |
| `PyText.StripEmptyIff` | src/retrieval_graph/utils.py:46 | `strip()` gives "" exactly when the text is all whitespace |
| `PyText.StripShape` | src/retrieval_graph/utils.py:46 | `strip()` returns a slice of its input with only whitespace cut off each end, and no whitespace is left at either end |
| `PyText.StripUnpadded` | src/retrieval_graph/utils.py:46 | text without whitespace at either end is left as it is by `strip()` |
| `PyText.Words` | pinecone/enrich_chunk_metadata.py:389 | `s.split()`: the maximal runs of non-whitespace, left to right; see WordsAreWords, WordsDropSpace, WordsDropTrailingSpace, WordsConsWord, CleanTextWords |
| `PyText.Join` | pinecone/enrich_chunk_metadata.py:391 | `sep.join(items)`: the items in order with `sep` between neighbours, "" for no items; see JoinContains, JoinWordsOfNormal, CleanTextWords |
| `PyText.WordsAreWords` | pinecone/enrich_chunk_metadata.py:389 | every element of `split()` is non-empty and free of whitespace |
| `PyText.JoinWordsOfNormal` | pinecone/enrich_chunk_metadata.py:389-391 | for normalised text, `" ".join(t.split()) == t`, and non-empty normal text has at least one word |
| `PyText.WordsDropSpace` | pinecone/enrich_chunk_metadata.py:389 | whitespace before the text does not change what `split()` returns |
| `PyText.WordsDropTrailingSpace` | pinecone/enrich_chunk_metadata.py:389 | whitespace after the text does not change what `split()` returns |
| `PyText.WordsConsWord` | pinecone/enrich_chunk_metadata.py:389 | a leading non-space character is a word of its own before whitespace, and otherwise joins the first word |
| `PyText.CollapseWords` | pinecone/enrich_chunk_metadata.py:38 | `re.sub(r'\s+', ' ', s)` has the same `split()` words as `s` |
| `PyText.StripWords` | pinecone/enrich_chunk_metadata.py:38 | `strip()` does not change the `split()` words |
| `PyText.CleanTextWords` | pinecone/enrich_chunk_metadata.py:36-38 | `clean_text(s)` has the words of `s`, and equals `" ".join(s.split())` |
| `PyText.CollapseAppend` | pinecone/enrich_chunk_metadata.py:38 | text that starts with a non-space collapses on its own: a whitespace run never crosses into it |
| `PyText.CollapseAround` | pinecone/enrich_chunk_metadata.py:38 | text in the shape `clean_text` produces passes through `re.sub(r'\s+', ' ', ...)` unchanged, wherever it stands |
| `PyText.StripKeepsInner` | pinecone/enrich_chunk_metadata.py:38 | `strip()` keeps whole any part that starts and ends with a non-space |
| `PyText.NormalSurvivesClean` | pinecone/enrich_chunk_metadata.py:36-38 | text in the shape `clean_text` produces that occurs in `s` still occurs in `clean_text(s)` |
| `PyText.JoinContains` | src/retrieval_graph/utils.py:116 | every item occurs in `sep.join(items)` |
| `PyText.OccursInside` | src/retrieval_graph/utils.py:117-119 | a string that occurs in `s` occurs in any text that contains `s` |
| `PyText.Find` | pinecone/enrich_chunk_metadata.py:341 | `s.find(p)` is -1 exactly when `p` does not occur, and is otherwise the least index where `p` occurs |
| `PyText.FindFrom` | pinecone/enrich_chunk_metadata.py:396 | `s.find(p, i)` is -1 or an occurrence at or after `i`, with no occurrence between `i` and it |
| `Decimal.NatToString` | pinecone/enrich_chunk_metadata.py:326 | `str(n)` of a natural is a non-empty run of digits with no leading zero |
| `Decimal.ParseRender` | pinecone/enrich_chunk_metadata.py:45 | `int(str(n)) == n` |
| `PyValue.Str` | src/retrieval_graph/utils.py:68 | `str(v)` of a string is the string; of an integer it is non-empty and starts with `-` exactly when the integer is negative |
| `PyValue.StrOfNat` | src/retrieval_graph/utils.py:68 | `str(n)` of a non-negative integer is its digits, which read back as `n` |
| `PageMarkers.FindAllMarkers` | pinecone/enrich_chunk_metadata.py:44 | `re.findall(r'--- PAGE (\d+) ---', s)` as pages: the matches scanned left to right, resuming after each; see MarkersOfPrefix, MarkerAtExtends, MarkerAtRestricts, NoMarkerInsideCut |
| `PageMarkers.ExtractPageNumber` | pinecone/enrich_chunk_metadata.py:40-45 | the page of the last marker found in `text[:position]`, or 1; see MarkersOfPrefix, PageNumberMonotone, MarkerRoundTrip |
| `PageMarkers.DigitRun` | pinecone/enrich_chunk_metadata.py:44 | greedy `\d+` takes every digit from the position on and stops at a non-digit or at the end |
| `PageMarkers.MarkerAt` | pinecone/enrich_chunk_metadata.py:44 | a match of `--- PAGE (\d+) ---` is at least 14 characters long and lies inside the text |
| `PageMarkers.MarkerRoundTrip` | pinecone/enrich_chunk_metadata.py:40-45 | wherever the marker written for page `n` stands, the pattern matches there and reads back page `n` |
| `PageMarkers.MarkersOfPrefix` | pinecone/enrich_chunk_metadata.py:43-44 | the markers found in `text[:p]` are a prefix of those found in the whole text |
| `PageMarkers.MarkerAtExtends` | pinecone/enrich_chunk_metadata.py:43-44 | a marker match inside a prefix is the same match in the longer text |
| `PageMarkers.MarkerAtRestricts` | pinecone/enrich_chunk_metadata.py:43-44 | a marker match of the whole text that ends inside a prefix is also a match of the prefix |
| `PageMarkers.NoMarkerInsideCut` | pinecone/enrich_chunk_metadata.py:43-44 | a prefix that cuts a marker in two has no further marker after the cut marker's start |
| `PageMarkers.PageNumberMonotone` | pinecone/enrich_chunk_metadata.py:40-45 | when the markers are non-decreasing and at least 1, `extract_page_number` never decreases as the position grows |
| `PageMarkers.BuildFullText` | pinecone/enrich_chunk_metadata.py:318-326 | the page loop builds `"\n--- PAGE k ---\n" + text` for each page k from 1, in order |
| `PageMarkers.FullText` | pinecone/enrich_chunk_metadata.py:324-326 | the document text: `"\n--- PAGE k ---\n" + text` for each page k from 1, concatenated; see BuildFullText, FullTextPrefix, PageMarkerInFullText, PageMarkerInCleanText |
| `PageMarkers.FullTextPrefix` | pinecone/enrich_chunk_metadata.py:324-326 | the text of the first k pages followed by page k+1's block is a prefix of the whole text |
| `PageMarkers.PageMarkerInFullText` | pinecone/enrich_chunk_metadata.py:324-326 | the marker of page k+1 stands right after the first k pages' text and its newline, and reads back as page k+1 |
| `PageMarkers.MarkerTextIsNormal` | pinecone/enrich_chunk_metadata.py:326 | `--- PAGE n ---` has single spaces and no whitespace at either end, so `clean_text` leaves it as it is |
| `PageMarkers.FullTextAroundMarker` | pinecone/enrich_chunk_metadata.py:324-326 | the document text holds the marker of every page |
| `PageMarkers.PageMarkerInCleanText` | pinecone/enrich_chunk_metadata.py:318-333 | the marker of every page is still in `clean_text(full_text)`, the text that is searched and handed to `extract_page_number`, and reads back there as that page |
| `Sections.LatestOfKind` | pinecone/enrich_chunk_metadata.py:88-93 | there is no pick exactly when no row of the kind starts at or before the page; otherwise the pick is such a row with the greatest start page, and the first of them in table order |
| `Sections.FindSectionForPage` | pinecone/enrich_chunk_metadata.py:73-98 | None exactly for an empty table; the raw first row exactly when no row starts at or before the page |
| `Sections.ActiveSides` | pinecone/enrich_chunk_metadata.py:84-98 | otherwise the main side is present exactly when a main section starts at or before the page, and it is the first of the latest-starting such rows; the same holds for the subsection side |
| `Sections.ActiveHasASide` | pinecone/enrich_chunk_metadata.py:88-89 | a lookup that finds candidates has at least one side |
| `Sections.RenderSide` | pinecone/enrich_chunk_metadata.py:110-124 | with name and title both defaulting to "Unknown", a side renders as `name (title)` when they differ and as `name` when they are equal |
| `Sections.Parts` | pinecone/enrich_chunk_metadata.py:108-126 | the rendered sides that are present and truthy, main first; `format_section_info` joins them with " > "; see FormatHierarchy, FormatSectionInfo |
| `Sections.FormatSectionInfo` | pinecone/enrich_chunk_metadata.py:100-126 | no section and a raw first row both render as "Unknown" |
| `Sections.FormatHierarchy` | pinecone/enrich_chunk_metadata.py:108-126 | two sides render as `main > sub`, and one side renders alone |
| `Sections.PageBeforeAllRows` | pinecone/enrich_chunk_metadata.py:84-85 | a page before every row yields the first row, which renders as "Unknown" |
| `FragmentSelector.SplitTags` | pinecone/extract_fragment.py:16 | `re.split(r'<[^>]+>', s)`: the pieces between the non-overlapping tag matches, scanned left to right; see PiecesAreTagFree, SplitTagsRebuild, SplitFromTagFree |
| `FragmentSelector.LongestFragment` | pinecone/extract_fragment.py:13-25 | `get_longest_text_fragment(text)`: the longest cleaned piece, the first one on ties; see LongestIsFirstMax, LongestFragmentIsNormal, LongestFragmentTagFree, LongestFragmentOfTagFree, LongestFragmentEmptyIff, LongestFragmentOfEmpty |
| `FragmentSelector.FirstGt` | pinecone/extract_fragment.py:16 | the scan for `[^>]+>` stops at the first `>`, or at the end |
| `FragmentSelector.TagEnd` | pinecone/extract_fragment.py:16 | a match of `<[^>]+>` spans at least three characters |
| `FragmentSelector.TagFreeIffNoMatch` | pinecone/extract_fragment.py:16 | a text has no `<`, then some non-`>` characters, then `>`, exactly when `<[^>]+>` matches nowhere in it |
| `FragmentSelector.PiecesAreTagFree` | pinecone/extract_fragment.py:16 | no piece of `re.split(r'<[^>]+>', t)` contains a tag |
| `FragmentSelector.SplitRebuild` | pinecone/extract_fragment.py:16 | from any scan position, the pieces with the removed matches put back between them rebuild the text, and every removed match is a tag |
| `FragmentSelector.SplitTagsRebuild` | pinecone/extract_fragment.py:16 | `re.split(r'<[^>]+>', t)` loses nothing but tags: the pieces with the `re.findall` tags between them give back `t` |
| `FragmentSelector.SplitFromTagFree` | pinecone/extract_fragment.py:16 | a text without a tag splits into itself alone |
| `FragmentSelector.CleanTextTagFree` | pinecone/extract_fragment.py:21 | normalising whitespace does not create a tag |
| `FragmentSelector.LongestIsFirstMax` | pinecone/extract_fragment.py:19-23 | the kept fragment is at least as long as every cleaned piece and is "" exactly when every piece is; otherwise it is the earliest piece of that length |
| `FragmentSelector.GetLongestTextFragment` | pinecone/enrich_chunk_metadata.py:128-140 | the loop over the pieces keeps the longest cleaned piece, as above |
| `FragmentSelector.LongestFragmentIsNormal` | pinecone/extract_fragment.py:21 | the result has no whitespace at either end and no whitespace runs |
| `FragmentSelector.LongestFragmentTagFree` | pinecone/extract_fragment.py:16 | the result never contains a complete `<...>` tag |
| `FragmentSelector.LongestFragmentOfTagFree` | pinecone/extract_fragment.py:16-23 | for text without tags the result is the whole text normalised |
| `FragmentSelector.LongestFragmentEmptyIff` | pinecone/extract_fragment.py:19-25 | the result is "" exactly when every piece between tags is all whitespace |
| `FragmentSelector.PiecesEmptyIff` | pinecone/extract_fragment.py:21-22 | a piece cleans to "" exactly when it is all whitespace |
| `FragmentSelector.LongestFragmentOfEmpty` | pinecone/extract_fragment.py:19-25 | the empty text gives "" |
| `Locator.Contains` | pinecone/enrich_chunk_metadata.py:340 | `p in s` holds exactly when `p` occurs in `s` |
| `Locator.PrefixSearch` | pinecone/enrich_chunk_metadata.py:390-392 | the downward loop picks the largest word count whose leading words, joined by spaces, occur; it finds none exactly when no count from 1 up does |
| `Locator.LocateSpan` | pinecone/enrich_chunk_metadata.py:340-342 | a span found lies inside the text |
| `Locator.LocateInText` | pinecone/enrich_chunk_metadata.py:339-397 | the exact test, then the downward loop with early return, computes `LocateSpan` |
| `Locator.LocateSpanMeaning` | pinecone/enrich_chunk_metadata.py:339-397 | an occurring fragment gives an exact span at its first occurrence; otherwise a partial span covers the first occurrence of the longest occurring run of leading words; nothing is found exactly when no run occurs |
| `Locator.ContextAround` | pinecone/enrich_chunk_metadata.py:359-364 | `before + matched + after == context`, `matched` is `text[start:end]`, each side is the window clamped to the text, and the context occurs at its start |
| `Locator.PartialIsStrict` | pinecone/find_paragraph.py:69-72 | for a normalised fragment a partial hit names fewer words than the fragment has |
| `Locator.NotFoundIffFirstWordMissing` | pinecone/find_paragraph.py:102-103 | nothing is found exactly when neither the fragment nor its first word occurs |
| `Locator.EmptyFragmentIsExact` | pinecone/find_paragraph.py:40-42 | the empty fragment is an exact hit at position 0 |
| `FindParagraph.ParagraphFor` | pinecone/find_paragraph.py:15-103 | the exact or partial hit of the cleaned fragment in the cleaned pages with its window of context, or nothing; see FindFragmentInPdf, FoundParagraph, BlankFragmentFoundAtStart |
| `FindParagraph.FindFragmentInPdf` | pinecone/find_paragraph.py:15-103 | the script's steps compute `ParagraphFor`: the page loop, normalising, matching and the window |
| `FindParagraph.FoundParagraph` | pinecone/find_paragraph.py:40-100 | a hit's parts rebuild its context; an exact hit matches the normalised fragment; a partial hit leaves out at least one word; each side is at most the window |
| `FindParagraph.BlankFragmentFoundAtStart` | pinecone/find_paragraph.py:32-42 | an all-whitespace fragment is an exact hit at position 0 |
| `Enrich.LocateInPdf` | pinecone/enrich_chunk_metadata.py:300-442 | `find_fragment_in_pdf`: the file error, or the span of the cleaned fragment in the cleaned document text, with its page, its context and its section; see FindFragmentInPdf, ErrorsComeFromTheFile, LocatedInPdf, ExactSpan, NotLocatedInPages |
| `Enrich.SectionFor` | pinecone/enrich_chunk_metadata.py:348-350 | a section is attached exactly when the table is non-empty, the page non-zero and the lookup truthy, and it is then the lookup's result |
| `Enrich.FindFragmentInPdf` | pinecone/enrich_chunk_metadata.py:300-442 | the function's steps compute `LocateInPdf`: the missing file, the read error, the page loop, the matching, the page and the section |
| `Enrich.ErrorsComeFromTheFile` | pinecone/enrich_chunk_metadata.py:304-329 | the result carries an error exactly when the file is missing ("PDF file not found") or unreadable ("PDF read error: " and the reason) |
| `Enrich.LocatedInPdf` | pinecone/enrich_chunk_metadata.py:340-385 | a hit's page is `extract_page_number` at its start, its parts rebuild the context within the window, an exact hit is the fragment at its first occurrence, and the section follows `SectionFor` |
| `Enrich.ExactSpan` | pinecone/enrich_chunk_metadata.py:340-342 | an exact span covers the fragment at its first occurrence |
| `Enrich.NotLocatedInPages` | pinecone/enrich_chunk_metadata.py:386-442 | a readable filing gives `found` False exactly when neither the normalised fragment nor its first word occurs |
| `Enrich.MetadataFor` | pinecone/enrich_chunk_metadata.py:273-298 | `page_number` is set exactly for a hit; the section display is set exactly for an attached section; the main and subsection names and titles are set exactly for sides that are present, defaulting to ""; no other key is set |
| `Enrich.CreateMetadataFromResult` | pinecone/enrich_chunk_metadata.py:273-298 | the dict filled key by key equals `MetadataFor` |
| `Enrich.ResultKeys` | pinecone/enrich_chunk_metadata.py:371-383 | the result dict has `page_number` exactly for a hit, and `section` exactly when one is attached |
| `Enrich.Index.Update` | pinecone/enrich_chunk_metadata.py:261-271 | an accepted update is appended to the log; a refused one changes nothing and reports failure |
| `Enrich.UpdateChunkMetadata` | pinecone/enrich_chunk_metadata.py:253-271 | a dry run reports success and leaves the index untouched; otherwise the outcome and the write are the index's |
| `Enrich.ChunkText` | pinecone/enrich_chunk_metadata.py:492 | `chunk.metadata.get('text', '')`: the stored text, or "" when it is missing; see ProcessChunk |
| `Enrich.PlanFor` | pinecone/enrich_chunk_metadata.py:489-523 | the exits of `process_chunk` before the write, in the source's order: no text, no fragment, not located, no metadata, or the updates; see PlanNeverEmpty, ProcessChunk, Plans |
| `Enrich.PlanNeverEmpty` | pinecone/enrich_chunk_metadata.py:519-523 | a located fragment always yields a page number, so the "no metadata" exit is never taken |
| `Enrich.ProcessChunk` | pinecone/enrich_chunk_metadata.py:489-537 | the chunk succeeds exactly when it has text, a fragment, a hit and metadata, and the write is accepted or the run is dry; only then is one write logged |
| `Enrich.Plans` | pinecone/enrich_chunk_metadata.py:489-523 | one decision of `process_chunk` per chunk, in order |
| `Enrich.SuccessCount` | pinecone/enrich_chunk_metadata.py:229-251 | the number of successes is at most the number of chunks processed |
| `Enrich.BatchCount` | pinecone/enrich_chunk_metadata.py:227 | `(n + size - 1) // size` batches cover all n chunks, and the last batch is not empty |
| `Enrich.BatchStart` | pinecone/enrich_chunk_metadata.py:233-234 | every batch starts before the end of the chunks |
| `Enrich.NextBatch` | pinecone/enrich_chunk_metadata.py:234-236 | each batch ends where the next begins, and the last ends at n |
| `Enrich.ProcessBatch` | pinecone/enrich_chunk_metadata.py:240-247 | the inner loop processes `chunks[start:end]` in order, adding their successes and writes |
| `Enrich.ProcessChunksInBatches` | pinecone/enrich_chunk_metadata.py:224-251 | every chunk is processed once, in order; the count returned is the number of successes; the log grows by exactly their writes |
| `Enrich.WritesMatchCount` | pinecone/enrich_chunk_metadata.py:224-251 | a dry run writes nothing; otherwise there is one write per success, each for a chunk the index accepts |
| `Enrich.Unenriched` | pinecone/enrich_chunk_metadata.py:203-207 | the candidates are exactly the chunks whose `page_number` is falsy: each such chunk is kept as often as it occurs in the input, and every other chunk is dropped |
| `Enrich.UnenrichedAppend` | pinecone/enrich_chunk_metadata.py:203-207 | the comprehension keeps the order of the input: filtering two lists one after the other is filtering each and concatenating |
| `Enrich.SelectChunksForProcessing` | pinecone/enrich_chunk_metadata.py:201-222 | no candidates give []; `count == -1` gives every candidate; otherwise `min(count, n)` candidates, drawn without replacement; a negative sample size raises |
| `CompanyFilter.Dedup` | src/retrieval_graph/graph.py:57 | `list(dict.fromkeys(xs))`: the first occurrence of each element, in order; see DedupSpec, DedupKeepsOrder |
| `CompanyFilter.Detect` | src/retrieval_graph/graph.py:28-57 | `detect_companies(query)`: the files whose aliases occur as whole words in the lower-cased query, in table order, each once; see DetectCompanies, DetectIff, DetectOnlyKnownFiles, DetectIgnoresCase, DetectNone, TickerAndName |
| `CompanyFilter.LowerChar` | src/retrieval_graph/graph.py:48 | ASCII capitals map to their lower-case letters, and every other character is kept |
| `CompanyFilter.Lower` | src/retrieval_graph/graph.py:48 | `lower()` lower-cases every character in place |
| `CompanyFilter.LowerIdempotent` | src/retrieval_graph/graph.py:48 | lower-casing twice is lower-casing once |
| `CompanyFilter.SearchWordFromIff` | src/retrieval_graph/graph.py:53 | the scan from `i` finds the word exactly when it occurs whole at some position from `i` on |
| `CompanyFilter.SearchWordIff` | src/retrieval_graph/graph.py:53 | `re.search(r'\b' + word + r'\b', q)` succeeds exactly when the word occurs whole |
| `CompanyFilter.DedupSpec` | src/retrieval_graph/graph.py:57 | `list(dict.fromkeys(xs))` holds the same elements, each once |
| `CompanyFilter.DedupKeepsOrder` | src/retrieval_graph/graph.py:57 | deduplicating a longer list only appends to the result for its prefix |
| `CompanyFilter.DetectCompanies` | src/retrieval_graph/graph.py:28-57 | the loop over the alias table, then deduplication, computes `Detect` |
| `CompanyFilter.DetectedFilesIff` | src/retrieval_graph/graph.py:51-54 | a file is collected exactly when one of its aliases matches |
| `CompanyFilter.DetectIff` | src/retrieval_graph/graph.py:38-57 | a file is returned exactly when one of its aliases occurs as a whole word in the lower-cased query, and no file is returned twice |
| `CompanyFilter.DetectOnlyKnownFiles` | src/retrieval_graph/graph.py:38-46 | every returned file is one of the four filings |
| `CompanyFilter.DetectIgnoresCase` | src/retrieval_graph/graph.py:48 | a query and its lower-cased form select the same files |
| `CompanyFilter.DetectNone` | tests/unit_tests/test_company_filtering.py:31-33 | a query with no alias as a whole word selects nothing |
| `CompanyFilter.AliasInsideWordDoesNotMatch` | src/retrieval_graph/graph.py:52-54 | "amd" does not match inside "amd64" but matches in "amd 64" |
| `CompanyFilter.TickerAndName` | tests/unit_tests/test_company_filtering.py:23 | "INTC vs AMD comparison" gives exactly `["amd_10k.pdf", "intel_10k.pdf"]`: the order of the alias table, not of the query (the test compares sets) |
| `CompanyFilter.DetectIntcVsAmd` | src/retrieval_graph/graph.py:38-57 | every query that lower-cases to "intc vs amd comparison" gives exactly the AMD report and then the Intel report |
| `CompanyFilter.TickerAndNameDetected` | src/retrieval_graph/graph.py:50-54 | of the seven aliases, only "amd" and then "intc" match in "intc vs amd comparison" |
| `CompanyFilter.AbsentFromQuery` | src/retrieval_graph/graph.py:53 | an alias whose first two letters begin none of the words of "intc vs amd comparison" does not match in it |
| `Citations.GetMessageText` | src/retrieval_graph/utils.py:19-46 | `get_message_text(msg)`: string content as it is; dict content's `text`, or ""; list content's item texts joined and stripped; see ItemsTextIsTrimmed, ItemsTextUnpadded, ItemWithoutTextIgnored, ConcatAppend, MessageTextExamples |
| `Citations.ConcatAppend` | src/retrieval_graph/utils.py:45-46 | the joined texts of two lists of items one after the other are the two joins concatenated |
| `Citations.ItemsTextIsTrimmed` | src/retrieval_graph/utils.py:45-46 | list content gives a slice of the items' concatenation with no whitespace at either end |
| `Citations.ItemsTextUnpadded` | src/retrieval_graph/utils.py:45-46 | list content whose concatenation is unpadded gives exactly that concatenation |
| `Citations.ItemWithoutTextIgnored` | src/retrieval_graph/utils.py:45 | an item with a missing or empty text can be dropped without changing the result |
| `Citations.MessageTextExamples` | src/retrieval_graph/utils.py:31-37 | the three documented examples: "Hello", "World" and "Hello World" |
| `Citations.FileName` | src/retrieval_graph/utils.py:82 | `path.split('/')[-1]` has no `/`, ends the path, and follows a `/` or is the whole path |
| `Citations.FileNameOfPath` | src/retrieval_graph/utils.py:82 | a name without `/` is its own file name and the file name of any `dir + "/" + name` |
| `Citations.Lookup` | src/retrieval_graph/utils.py:61-63 | `metadata.get(key)` is None exactly when no item has the key, and otherwise the value of an item with that key |
| `Citations.Attrs` | src/retrieval_graph/utils.py:73 | each item contributes at least a space and `=`, and non-empty attributes start with a space |
| `Citations.FormattedDoc` | src/retrieval_graph/utils.py:49-85 | `_format_doc(doc)`: the `<document>` block with its attributes and the content with its citation, or None where the source raises; see FormatDoc, FormatDocFailsIff, FormatDocKeepsContent, FormatDocWithoutCitation, FormatDocFullCitation, FormatDocPageOnly |
| `Citations.FormatDoc` | src/retrieval_graph/utils.py:49-85 | the step-by-step build (parts appended, attributes item by item, content reassigned) computes `FormattedDoc` |
| `Citations.FormatDocFailsIff` | src/retrieval_graph/utils.py:66-83 | formatting raises exactly when a truthy section is not a string, or when there is a citation and a truthy `source_file` is not a string |
| `Citations.FormatDocKeepsContent` | src/retrieval_graph/utils.py:78-85 | a block opens with the attributes and then the content verbatim, and ends with `\n</document>` |
| `Citations.FormatDocWithoutCitation` | src/retrieval_graph/utils.py:66-85 | with no truthy page or section the content is unchanged; with no metadata the block is `<document>\n` content `\n</document>` |
| `Citations.MetaTextStartsWithTwoSpaces` | src/retrieval_graph/utils.py:73-75 | non-empty attributes follow the tag name after two spaces |
| `Citations.FormatDocFullCitation` | src/retrieval_graph/utils.py:66-83 | with a page, a section and a source path the content gets `\n\n[Citation: Page N, section from name]`, where `name` is the file name of the path |
| `Citations.FormatDocPageOnly` | src/retrieval_graph/utils.py:63-83 | a page alone, with no source file, is cited `[Citation: Page N from document]` |
| `Citations.FormatDocs` | src/retrieval_graph/utils.py:88-119 | `format_docs(docs)`: the blocks of the documents joined by newlines inside `<documents>`, or None when one of them raises; see MapAllSpec, FormatDocsLayout, FormatDocsContainsEach, FormatDocsExamples |
| `Citations.MapAllSpec` | src/retrieval_graph/utils.py:116 | the generator yields one block per document, in order, and fails exactly when one document fails |
| `Citations.FormatDocsLayout` | src/retrieval_graph/utils.py:114-119 | None or no documents give `<documents></documents>`; otherwise the element holds the blocks in order joined by newlines, and fails exactly when a document does |
| `Citations.FormatDocsContainsEach` | src/retrieval_graph/utils.py:116-119 | every document's block occurs in the result |
| `Citations.FormatDocsExamples` | src/retrieval_graph/utils.py:99-112 | the two documented examples |

## Left out

- Unicode: `lower()`, `\w`, `\d` and `int()` are modelled for ASCII only. Other letters are left as they are by `lower()` and do not count as word characters. `PageMarkers.DigitRun` and the digit parsing behind it take only `0`-`9`, while Python's `\d` and `int()` also accept other Unicode decimal digits, so a marker such as `--- PAGE ٣ ---` is not read.
- Section rows: `Section` keeps only five keys. Four are the keys the lookup reads (`section_name`, `section_title`, `start_page_number`, `is_subsection`), and the fifth is the row's `description`. A row is truthy in the model when one of them is present. A row that holds only other keys, such as `level` or `parent_section` (scripts/extract_sections.py:29-36), is truthy in Python but not in the model.
- JSON `null`: a key whose value is `null` is read as a missing key.
- PDF reading: reading the file with PyPDF2 is not modelled. The filing is an input, given as its pages' texts or as a missing or unreadable file, and page text extraction is taken as given.
- JSON: loading the section table (`load_sections_data`, `get_sections_file_mapping`) is not modelled; the table is an input.
- Loading per chunk: the script reloads the filing and the section table for every chunk; the model passes them in once, which gives the same results.
- Index access: fetching chunks from the index is not modelled. The index is reduced to a write log, and an update that raises is modelled as the index refusing that chunk id.
- Scripts and output: `argparse`, `main`, every `print`, and the success-rate percentages are not modelled.
- Enrich.SelectChunksForProcessing: `random.sample` is modelled as some sample of the right size drawn without replacement; which sample is chosen is not modelled. For a negative count other than -1, `random.sample` raises and the model returns None.
- Enrich.ProcessChunksInBatches: requires `batch_size >= 1`, because the source divides by it, and 0 raises `ZeroDivisionError` before any chunk is processed. Its `plans` parameter is a ghost copy of the per-chunk decisions, fixed by `PlannedAs` and computed by `Plans`.
- Enrich.ChunkText: a chunk's `text` that is not a string is treated as missing.
- Metadata values: they are integers or strings. Floats, `None` values and nested values are not modelled, and a dict-content message whose `text` is `None` is treated as missing.
- `repr`: the value `repr` gives an attribute is a parameter of `_format_doc` and is left uninterpreted.
- `doc.metadata or {}`: this is modelled as the list of the dict's items in insertion order, with each key once. `Lookup` takes the first item with a key.
- Citations.FormatDoc: when both the section and `source_file` have the wrong type, the source raises at the join before reading the file name. The model reports the same failure (None) without saying which error it was.
- `max` ties: Python's `max` keeps the first maximal row; `Sections.LatestOfKind` picks the first row with the greatest start page.
- Other modules: the LangChain/LangGraph graph nodes and LLM calls, `load_chat_model` and `prompts.py` are not part of this model.

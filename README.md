# IFRC PDF keyword searcher — a Dafny model

This project is a model of the core of the IFRC PDF keyword searcher, written in Dafny, with proofs about it.
The searcher walks a folder of PDF files and finds every occurrence of a list of keywords or key phrases.
For each hit it records one row `[file, page, keyword, text]`, where the text is the passage around the hit.
It also keeps, per file, the hit rectangles of every page, so that a viewer can highlight them.

PyMuPDF (`fitz`) supplies all text. The model takes it as plain data; the Fitz module holds it.

- A page is its list of word entries `(x0, y0, x1, y1, text)` and its width and height.
- `page.search_for(keyword)` is a fixed function `searchFor(page, keyword)` giving a list of rectangles.
- `page.get_textbox(rect)` is a fixed function `textbox(page, rect)` giving a string.
- `fitz.open(path)` is a function from a path to an optional document. None means that `fitz.open` raises.
- Coordinates are `real`.

Both batch loops say `from document import Document`. For src/document_searcher.py this is src/document.py. For ifrc_keyword_searcher/document_searcher.py it would be a `document` module of its own package, which is not part of this model; the model uses the search of src/document.py there too. Its proofs depend only on whether that search returns rows or raises.

Python exceptions are values. `Result` is `Ok(value)` or `Raise(error)`, and the error names the Python exception (Wrappers).
A loop that appends values until the first exception is `AllOk`.

The modules follow the source files:

- **DocumentSpec** states what `Document` (src/document.py) computes, as functions:
  - `tidy_text`;
  - the budgeted word walk of `iterate_words_limit`;
  - the first-match search of `find_bounding_words`;
  - the sorted per-page word index of `get_words`, with its page-number heuristic;
  - the rows and instance map of `search_for_keywords`.

  The walk takes the per-entry weight as a parameter. The search instantiates it with `Tokens`: the number of words `split()` finds in the entry's text, after non-breaking spaces become spaces and the ends are stripped.
- **Document** is the `Document` class. Its methods keep the source's loops, and each is proved equal to the matching DocumentSpec function.
- **LegacySpec** and **LegacySearch** are the older inline search of `loop_files_search_keywords` in search_for_keywords.py. There, the context comes from slice arithmetic on the raw word lists, and the text block is the box from the first to the last word of the block. LegacySpec holds the functions; LegacySearch holds the loops, proved equal to them.
- **KeywordSearchApp** holds the non-GUI logic of search_for_keywords.py:
  - the module globals, as the class `App`;
  - the file loop `loop_files_search_keywords`;
  - the search button's handler, which cancels a running search or resets the results and runs the loop;
  - the parsing of the keyword box;
  - the clamping of the viewer's page number.
- **IfrcDocumentSearcher** and **SrcDocumentSearcher** are the two `DocumentSearcher.search_for_keywords` batch loops. Both update the variables of `settings`, modelled as the class `Settings.Globals`.
- **Tally** is what the batch loops accumulate over the files: the rows, the instance map keyed per file, and the two counters. It proves what the accumulated state holds after any sequence of files.
- **Scan** is `FirstFalse`, the index at which a loop stops: the first failed cancellation check, or the first file that raises.
- **PyStr**, **PySeq** and **PyPath** cover the few Python built-ins the code relies on:
  - `str.isspace`, `strip`, `split()`, `split(sep)`, `join`, `replace` and `int()`;
  - list slicing with negative and clamped bounds, and `reversed`;
  - `os.path.basename` and `pathlib` suffixes.

The cancellation flag `searching` is written by the window thread while the search thread reads it. The model replaces it with an oracle `stillSearching: nat -> bool`, whose value at `i` is what the flag reads at the check before file `i`.

The model follows the code as written, including where the code misbehaves:

- In src/document.py, the next-page text box takes its width from `doc[pageno - 1]`, which is the last page when `pageno` is 0.
- A page on which the page-number heuristic raises gets no entry in the word index. A later hit on that page then raises KeyError.
- A detached page number "0" is kept, because `int("0")` is falsy.
- With a budget of 0 or less, the word walk still visits one entry.
- In the legacy search, a short left context on a page after the first is replaced by the tail of the previous page, not extended by it.
- In src/document_searcher.py, a file that is not a PDF raises NameError, because the warning names the undefined `filename`.
- A legacy search whose page scan raises leaves the exception escaping the search thread, with `searching` still set.

## Model

| member | source | states |
|---|---|---|
| Document.Document.constructor | src/document.py:14-17 | The file name is the path's base name, the extension is its `pathlib` suffix, and the document is what `fitz.open` read. |
| Document.Document.IterateWordsLimit | src/document.py:108-113 | The loop returns exactly `Walk(ws, limit, weight)`: the summed weight of the visited prefix and the last entry visited. |
| DocumentSpec.VisitedIsFirstReach | src/document.py:108-113 | The walk visits the shortest prefix whose count reaches `limit`, or every entry when none does. It visits nothing only on an empty list, and exactly one entry when `limit <= 0`. |
| DocumentSpec.VisitedEnds | src/document.py:108-113 | The walk visits no entry exactly on an empty list, and one entry when the limit is at most 0. |
| DocumentSpec.WalkResult | src/document.py:108-113 | An empty list gives `(0, None)`. Otherwise the word returned is the last entry visited, and a count below the limit means every entry was visited. |
| DocumentSpec.FirstCovering | src/document.py:138-148 | Returns the index of the first word containing the given end of the rectangle, every earlier word failing the test; None exactly when no word passes it. |
| Document.Document.FindBoundingWords | src/document.py:138-148 | The loop, early break included, returns the first word with the hit's top that spans its left edge, and the first with its bottom that spans its right edge. |
| DocumentSpec.SortByPosition | src/document.py:163 | The result is sorted by `(y0, x0)` and is a permutation of the page's entries. |
| DocumentSpec.InsertPermutes | src/document.py:163 | One insertion step of the sort adds the new entry and loses none. |
| DocumentSpec.InsertSorted | src/document.py:163 | One insertion step keeps a sorted list sorted. |
| DocumentSpec.SortStable | src/document.py:163 | The sort is stable: entries with equal keys keep their input order, as Python's `sorted` does. |
| DocumentSpec.StripPageNumber | src/document.py:164-170 | When the `try` block does not raise, the page is kept whole or loses exactly its last entry; the page then has at least two entries. |
| DocumentSpec.WordIndex | src/document.py:161-173 | A page has an entry in the word index exactly when the heuristic does not raise on it. |
| DocumentSpec.WordIndexSpec | src/document.py:161-173 | A page loses its entry exactly when it has fewer than two words, or its detached last word is not an integer. Its entry is the sorted page, minus the last word exactly when that word is detached and a nonzero integer. |
| DocumentSpec.WordIndexSorted | src/document.py:163-171 | Every list stored in the word index is sorted by position and nonempty. |
| DocumentSpec.WordIndexNonEmpty | src/document.py:164-171 | No list stored in the word index is empty. |
| DocumentSpec.ZeroPageNumberKept | src/document.py:166-168 | A detached last word "0" is kept, because `int("0")` is falsy. |
| Document.Document.GetWords | src/document.py:161-173 | The loop over the pages builds exactly `WordIndex(doc.pages)`. |
| DocumentSpec.TidyTextClean | src/document.py:185-188 | Tidied text has no whitespace at either end, no non-breaking space and no bullet-break sequence. |
| DocumentSpec.TidyTextIdempotent | src/document.py:185-188 | Tidying twice equals tidying once. |
| DocumentSpec.BulletBreakGone | src/document.py:186 | After the bullet breaks are replaced by `" - "`, none is left, not even one formed across a replacement. |
| DocumentSpec.KeywordHitsRects | src/document.py:51 | The rectangles of a keyword's hits on a page are exactly what `search_for` returned, and every such hit names that page and keyword. |
| DocumentSpec.Instances | src/document.py:45-53 | The instance map has a key for exactly the pages searched so far. |
| DocumentSpec.InstancesMatchHits | src/document.py:45-53 | A page's instance list is the rectangles of that page's hits, in order. |
| DocumentSpec.HitsFrom | src/document.py:46-54 | Every hit is on a searched page, for a listed keyword, at a rectangle `search_for` returned for it. |
| DocumentSpec.HitsByPage | src/document.py:46-54 | The hits come in page order. |
| DocumentSpec.HitsOnPage | src/document.py:46-54 | The hits on page `p` are exactly that page's hits, keyword by keyword and rectangle by rectangle. |
| DocumentSpec.PageHitsOnPage | src/document.py:47-53 | Every hit of a page lies on it, and their rectangles are the page's instance list. |
| DocumentSpec.MainBox | src/document.py:57-65 | The main box exists exactly when some word contains the hit's right end, and it lies on the hit's page. |
| DocumentSpec.MainBoxSpan | src/document.py:57-65 | The main box is full width, from the top of the entry the left walk ends at to the bottom of the entry the right walk ends at. |
| DocumentSpec.TopEntry | src/document.py:58-63 | The top of the main box comes from the entry the left walk ends at, or from the first word when the walk reaches none. |
| DocumentSpec.BottomEntry | src/document.py:60-65 | The bottom of the main box comes from the entry the right walk ends at, or from the last word when the walk reaches none. |
| DocumentSpec.PrevBlock | src/document.py:68-72 | A previous-page box exists only when wanted, and lies on page `p - 1`. On a word index with nonempty lists, it fails only when that page has no entry. |
| DocumentSpec.NextBlock | src/document.py:73-77 | A next-page box exists only when wanted, and lies on page `p + 1`. On a word index with nonempty lists, it fails only when that page has no entry. |
| DocumentSpec.PrevBlockSpan | src/document.py:68-72 | The previous-page box runs from the top of the entry `k` places from that page's end, `k` being how many entries the walk with the remaining budget visits, down to the page's bottom. |
| DocumentSpec.NextBlockSpan | src/document.py:73-77 | The next-page box runs from the page top to the bottom of the `k`-th entry of that page, with the width of `doc[p - 1]`. |
| DocumentSpec.HitBoxesShape | src/document.py:57-77 | A hit's text is built from its main box, at most one box on the page before, present exactly when `word_count_left < word_pad` and `pageno > 0`, and at most one on the page after, present exactly when `word_count_right < word_pad` and a next page exists. |
| DocumentSpec.AroundMainShape | src/document.py:67-77 | Around a main box there is at most one block before it and at most one after it, each on the neighbouring page. |
| DocumentSpec.HitBoxesOk | src/document.py:57-77 | On the word index `get_words` builds, a hit's text raises only when no word holds its right end, or when its page or a needed neighbour page has no entry. |
| DocumentSpec.JoinAround | src/document.py:62-77 | The text joins the previous page's block, the main block and the next page's block with `"\n\n"`. |
| DocumentSpec.HitTextMissingPage | src/document.py:57 | A hit on a page without an entry in the word index raises KeyError. |
| DocumentSpec.HitTextMainFails | src/document.py:57-65 | A hit whose main box fails raises what the main box raises. |
| DocumentSpec.HitTextNeighbours | src/document.py:67-77 | Otherwise the text is the joined boxes around the main box, or the error of the first neighbour that fails. |
| DocumentSpec.RowsOk | src/document.py:54-83 | The rows exist exactly when every hit's text does. |
| DocumentSpec.RowsAt | src/document.py:54-83 | There is one row per hit, pointwise, with the hit's page number plus one, its keyword and its tidied text. |
| DocumentSpec.RowsFirstFailure | src/document.py:54-83 | Without rows, the exception is that of the first hit whose text raises. |
| DocumentSpec.RowsAppend | src/document.py:54-83 | The rows of two runs of hits are those of the first followed by those of the second, and the first exception wins. |
| DocumentSpec.SearchSpec | src/document.py:40-85 | The search succeeds exactly when every hit's row does; hits go in page, keyword and rectangle order. Then the instance map has a key for every page, listing that page's hit rectangles. Otherwise it fails with the first failing hit's exception. |
| DocumentSpec.SearchStep | src/document.py:46-83 | The rows of the first `p + 1` pages are those of the first `p` followed by those of page `p`. |
| DocumentSpec.SearchStop | src/document.py:46-83 | If page `p`'s rows raise after the earlier pages succeeded, the whole search raises the same exception. |
| DocumentSpec.SearchDone | src/document.py:85 | Once every page's rows are found, the search returns them with the full instance map. |
| Document.Document.MainBlock | src/document.py:57-65 | Computes exactly `MainBox`, with the counts of the two walks when it succeeds. |
| Document.Document.PrevPageBlock | src/document.py:68-72 | Computes exactly `PrevBlock`. |
| Document.Document.NextPageBlock | src/document.py:73-77 | Computes exactly `NextBlock`. |
| Document.Document.TextAround | src/document.py:62-77 | Computes the joined text of the boxes around a main box, or the first neighbour's error. |
| Document.Document.HitTextOf | src/document.py:57-77 | Computes exactly `HitText` for the stored word index. |
| Document.Document.KeywordRows | src/document.py:54-83 | The instance loop for one keyword computes exactly the rows of that keyword's hits. |
| Document.Document.PageRows | src/document.py:47-83 | The keyword loop of one page computes that page's rows. When they are found, it also gives the page's instance list. |
| Document.Document.SearchPage | src/document.py:46-83 | One page of the page loop either extends the rows and instance map, or raises what the whole search raises. |
| Document.Document.SearchPages | src/document.py:43-85 | The page loop over the stored word index computes exactly `SearchIn`. |
| Document.Document.SearchForKeywords | src/document.py:40-85 | Stores `WordIndex` in `words` and returns `Search(doc, filename, keywords, word_pad, Tokens)`. |
| LegacySpec.StartBeforeShape | search_for_keywords.py:178 | For `pad >= 0`, the first `words_before` is the `min(istart, pad)` words just before `istart`. |
| LegacySpec.WordsBeforeSpill | search_for_keywords.py:179-180 | When that is short and a previous page exists, `words_before` is replaced by the last `pad - len` words of the previous page, and the current page's words are dropped. |
| LegacySpec.WordsBeforeKept | search_for_keywords.py:178-180 | On the first page, or when `istart >= pad`, `words_before` is the current page's words before `istart`. |
| LegacySpec.WordsAfterShape | search_for_keywords.py:181-183 | `words_after` is the up to `pad` words after `iend`, topped up from the head of the next page when short. It never holds more than `pad` words. |
| LegacySpec.BlockHoldsHit | search_for_keywords.py:184 | The block is the words before, the hit's words `istart..iend` and the words after. It is nonempty when `istart <= iend`. |
| LegacySpec.CleanClean | search_for_keywords.py:187 | The legacy text has no non-breaking space and no bullet break. |
| LegacySpec.CleanIdempotent | search_for_keywords.py:187 | The legacy replacements are idempotent. `tidy_text` is those replacements followed by `strip`. |
| LegacySpec.HitTextCases | search_for_keywords.py:162-187 | The text raises TypeError exactly when a bounding word is missing. It raises IndexError exactly when the end word precedes the start word and the block is empty. A text found is clean. |
| LegacySpec.HitRowsOk | search_for_keywords.py:150-190 | The file's rows exist exactly when every hit's text does, with one row per hit in page, keyword and rectangle order. |
| LegacySpec.HitRowsFirstFailure | search_for_keywords.py:150-190 | A failure is that of the first hit whose text raises. |
| LegacySpec.HitRowsAppend | search_for_keywords.py:150-190 | The rows of two runs of hits are those of the first followed by those of the second. |
| LegacySpec.FailedPage | search_for_keywords.py:151-156 | The page at which the scan raises is within the document, or is the page count when the scan goes through. |
| LegacySpec.InstancesUpToKeys | search_for_keywords.py:151-156 | The file's instance map has a key for exactly the pages the scan reached. |
| LegacySpec.ScanStopsAt | search_for_keywords.py:151-156 | A scan stops at the first page that raises. That page keeps the rectangles of the keywords up to and including the failing one. |
| LegacySpec.ScanGoesThrough | search_for_keywords.py:151-156 | A scan in which no page raises leaves the full instance map. |
| LegacySpec.FileRowsRaise | search_for_keywords.py:151-190 | A page whose rows raise, after pages whose rows were found, makes the file's rows raise the same exception. |
| LegacySearch.PageWords | search_for_keywords.py:145-147 | `pdf_words` holds each page's raw word list, by page number. |
| LegacySearch.ContextBefore | search_for_keywords.py:178-180 | Computes exactly `WordsBefore`. |
| LegacySearch.ContextAfter | search_for_keywords.py:181-183 | Computes exactly `WordsAfter`. |
| LegacySearch.HitTextOf | search_for_keywords.py:162-187 | Computes exactly the legacy `HitText`. |
| LegacySearch.KeywordRows | search_for_keywords.py:154-190 | The instance loop computes exactly the rows of one keyword's hits. |
| LegacySearch.ScanPage | search_for_keywords.py:152-190 | One page gives its rows, or the exception of the first keyword that raises, with the rectangles stored up to that keyword. |
| LegacySearch.ScanAt | search_for_keywords.py:151-190 | One page of the page loop either extends the rows and instance map, or ends the scan with the file's exception and instance map. |
| LegacySearch.ScanFile | search_for_keywords.py:150-190 | The page loop computes exactly `FileRows` and `ScanInstances`. |
| KeywordSearchApp.FileOutcomeCases | search_for_keywords.py:125-192 | Every visited file stores an entry under its base name. A non-`.pdf` name keeps an empty one and raises nothing. A failed `fitz.open` keeps an empty one and raises. Otherwise the file's scan decides. |
| KeywordSearchApp.ScanOutcomeCases | search_for_keywords.py:150-198 | A scanned file keeps the instance lists it reached. It adds its rows exactly when no row raised; otherwise it adds none and the exception escapes. |
| KeywordSearchApp.RaisedNoRows | search_for_keywords.py:195-198 | A file whose search raised adds no rows. |
| KeywordSearchApp.VisitedKeys | search_for_keywords.py:125-126 | Every file the loop visited has an entry under its base name. |
| KeywordSearchApp.RecordEntered | search_for_keywords.py:126 | The entry a file gets before the checks only sets its key to an empty map. |
| KeywordSearchApp.RecordOverwrites | search_for_keywords.py:126-156 | The file's instance lists overwrite the empty entry it got before the checks. |
| KeywordSearchApp.RecordNoRows | search_for_keywords.py:195-198 | A file without rows only sets its entry. |
| KeywordSearchApp.FoldStep | search_for_keywords.py:124-204 | The state after one more file is the state before it with that file's contribution recorded. |
| KeywordSearchApp.FoldTotals | search_for_keywords.py:195-198 | From the reset state, the rows are the files' rows in file order, and the counters count them and the files with any. Every file has a key. |
| KeywordSearchApp.Done | search_for_keywords.py:124-141 | The loop gets through no more files than it checks, and no more than there are. |
| KeywordSearchApp.Reached | search_for_keywords.py:124-130 | The loop visits the files it got through plus the one it stopped at, and no more than there are. |
| KeywordSearchApp.StopFileFacts | search_for_keywords.py:124-141 | The file at which the loop stops adds no rows, only its entry under its base name. |
| KeywordSearchApp.LoopEndState | search_for_keywords.py:124-209 | The final state is the tally of the files the loop got through, with the file it stopped at, if any, recorded last. |
| KeywordSearchApp.SearchTotals | search_for_keywords.py:122-209 | After a search from the button, `keyword_results` is the rows of the files the loop got through, in file order. The counters count those rows and the files with any. Every visited file has an entry, the one the loop stopped at included. |
| KeywordSearchApp.KeepStrippedClean | search_for_keywords.py:243 | Every line kept is nonempty and stripped. |
| KeywordSearchApp.KeepStrippedAppend | search_for_keywords.py:243 | The filter works line by line, keeping order. |
| KeywordSearchApp.KeepStrippedLine | search_for_keywords.py:243 | One line gives its stripped text, or nothing when that is empty. |
| KeywordSearchApp.KeepStrippedKeeps | search_for_keywords.py:243 | Lines that are already nonempty and stripped are all kept, unchanged. |
| KeywordSearchApp.ParseKeywordsClean | search_for_keywords.py:243 | Every keyword is nonempty and has no whitespace at either end. |
| KeywordSearchApp.ParseKeywordsEmpty | search_for_keywords.py:243 | An empty keyword box gives no keywords. |
| KeywordSearchApp.ParseKeywordsJoin | search_for_keywords.py:243 | Keywords typed one per line are read back as typed, when each is nonempty, stripped and free of line breaks. |
| KeywordSearchApp.ClampPage | search_for_keywords.py:393-396 | With at least one page, the result is a valid page index and a valid page is kept. Past the end it becomes the last page, and a negative page becomes 0. With no page, a non-negative page becomes -1. |
| KeywordSearchApp.ClampPageIdempotent | search_for_keywords.py:393-396 | Clamping a clamped page changes nothing. |
| KeywordSearchApp.App.constructor | search_for_keywords.py:216-217 | The program starts not searching, with no results and no instances. |
| KeywordSearchApp.App.AddFileResults | search_for_keywords.py:195-198 | A file with rows extends `keyword_results` and both counters. The file's instance lists are stored under its name either way. |
| KeywordSearchApp.App.OpenAndScan | search_for_keywords.py:143-192 | Opening and scanning a file named like a PDF gives exactly the file's outcome: what it contributes, and the exception it raises, if any. |
| KeywordSearchApp.App.VisitAt | search_for_keywords.py:124-198 | File `i` gets its empty entry, then the flag check. A false check records only that entry. Otherwise the file's contribution is recorded and its exception, if any, returned. |
| KeywordSearchApp.App.LoopFilesSearchKeywords | search_for_keywords.py:100-209 | The loop's final state satisfies `LoopEnd`. The files are recorded in order, up to the first false check or the first raising file. A raising file ends the loop with its exception and the flag still set. Otherwise the flag is cleared. |
| KeywordSearchApp.App.SearchEvent | search_for_keywords.py:241-293 | A folder that does not exist changes nothing. While a search runs, the button only clears the flag. Otherwise it resets the rows and counters and runs the loop with the parsed keywords. |
| KeywordSearchApp.App.ClampNewPage | search_for_keywords.py:392-398 | The page becomes `ClampPage` of the old page. The clamp only ever sets `update_page`: the viewer redraws exactly when the event had already asked for it, for example because a table row opened a new file, or when the clamped page differs from the open one. |
| Tally.AccumulateFold | ifrc_keyword_searcher/document_searcher.py:44-88 | Accumulating over the files is folding the per-file step from the reset state. |
| Tally.RecordResults | ifrc_keyword_searcher/document_searcher.py:79-82 | A searched file's rows become `keyword_results` when it is None, and extend it otherwise. A skipped file changes nothing. |
| Tally.RecordSummary | ifrc_keyword_searcher/document_searcher.py:86-88 | One step adds the file's row count to `keywords`, and one to `documents` when the file has rows. |
| Tally.RecordRows | ifrc_keyword_searcher/document_searcher.py:79-82 | One step appends the file's rows to the rows so far. |
| Tally.AccumulateNone | ifrc_keyword_searcher/document_searcher.py:44-82 | `keyword_results` stays None exactly when it started None and no file reached the accumulation step. |
| Tally.AccumulateRows | src/document_searcher.py:59 | The rows are the starting rows followed by every file's rows, in file order. |
| Tally.AccumulateSummary | src/document_searcher.py:63-65 | `keywords` is the total number of rows added. `documents` is the number of files with at least one row, so it is 0 exactly when `keywords` is. |
| Tally.AccumulateInstances | src/document_searcher.py:60 | A key is in `keyword_instances` exactly when some file stored a map under it, and it holds the map of the last such file. |
| Tally.RowListsSnoc | ifrc_keyword_searcher/document_searcher.py:77-82 | The rows of one more file follow those of the files before it. |
| Tally.ProductiveSnoc | ifrc_keyword_searcher/document_searcher.py:86-88 | One more file with rows adds one to the number of files with rows. |
| Scan.FirstFalse | ifrc_keyword_searcher/document_searcher.py:49-53 | The number of files the loop gets through is at most the number of files. |
| Scan.FirstFalseFacts | ifrc_keyword_searcher/document_searcher.py:49-53 | Every check before the stopping index passed, and the check at it, if any, failed. |
| Scan.FirstFalseUnique | ifrc_keyword_searcher/document_searcher.py:49-53 | Any index before which every check passed, and at which the check failed or the files ran out, is where the loop stops. |
| Scan.FirstFalsePast | ifrc_keyword_searcher/document_searcher.py:49-53 | A check that passed up to and including file `i` stops after file `i`. |
| IfrcDocumentSearcher.MakeRelative | ifrc_keyword_searcher/document_searcher.py:77-78 | The in-place loop over the rows computes exactly `Relative`. |
| IfrcDocumentSearcher.FileContributionCases | ifrc_keyword_searcher/document_searcher.py:55-93 | A file adds nothing, not even an entry, exactly when `Document` raises or the suffix is not exactly `.pdf`. Otherwise its entry is under its relative path. A raising search adds no rows and an empty map; a successful one adds its rows, with each row's file name made relative to the search folder, and its map. |
| IfrcDocumentSearcher.OpenAndSearch | ifrc_keyword_searcher/document_searcher.py:55-78 | The file's open, suffix check, guarded search and relative names give exactly its contribution. |
| IfrcDocumentSearcher.RecordContribution | ifrc_keyword_searcher/document_searcher.py:79-88 | The accumulation step stores exactly `Record` of the contribution, and leaves the flag alone. |
| IfrcDocumentSearcher.SearchFile | ifrc_keyword_searcher/document_searcher.py:55-93 | One file that passed the check records exactly its contribution. |
| IfrcDocumentSearcher.VisitAt | ifrc_keyword_searcher/document_searcher.py:49-93 | A false check changes nothing. Otherwise the state becomes the accumulation over one more file. |
| IfrcDocumentSearcher.SearchForKeywords | ifrc_keyword_searcher/document_searcher.py:43-103 | The final state is the accumulation, from None, over the files before the first false check, and `searching` is False. The results table raises TypeError exactly when `keyword_results` is still None. |
| SrcDocumentSearcher.SearchFile | src/document_searcher.py:46-57 | Gives exactly the file's outcome: OpenError when `Document` raises, NameError for a non-PDF suffix, and the document's search otherwise. |
| SrcDocumentSearcher.RecordFile | src/document_searcher.py:59-65 | Appends the rows, stores the instance map under the base name and updates the counters, as `Record` does. |
| SrcDocumentSearcher.VisitAt | src/document_searcher.py:40-65 | A false check changes nothing. A raising file leaves the state as it was and returns the exception. Otherwise the state becomes the accumulation over one more file. |
| SrcDocumentSearcher.SearchForKeywords | src/document_searcher.py:33-72 | After the loop, the state is the accumulation over the files before the first false check or the first raising file. A raising file ends the search with its exception and the flag still set. Otherwise the counters are returned and the flag is cleared. |
| Settings.Globals.constructor | ifrc_keyword_searcher/settings.py:27-36 | `settings.init()`: not searching, no rows, no instances. |
| PyStr.Strip | src/document.py:187 | `strip()` leaves no whitespace at either end. |
| PyStr.StripBounds | src/document.py:187 | What `strip()` keeps is one slice of the input, with only whitespace before and after it. |
| PyStr.StripStripped | src/document.py:187 | Stripping a string with no whitespace at either end changes nothing. |
| PyStr.StripKeepsAbsence | src/document.py:187 | A character or pattern absent from a string is absent from its stripped form. |
| PyStr.IsSpaceListed | src/document.py:110 | `isspace()` holds exactly on the listed Unicode whitespace characters. |
| PyStr.TokenEnd | src/document.py:110 | The leading run of non-whitespace characters ends at whitespace or at the end of the string. |
| PyStr.Split | src/document.py:110 | Every piece `split()` returns is nonempty and holds no whitespace. |
| PyStr.SplitEmpty | src/document.py:110 | `split()` finds no word exactly in a string of whitespace. |
| PyStr.SplitSpaced | src/document.py:110 | Splitting a string at a run of whitespace splits each side on its own: `(a + sp + b).split() == a.split() + b.split()`. |
| PyStr.SplitStrip | src/document.py:110 | Stripping does not change what `split()` finds. |
| PyStr.SplitSameWords | src/document.py:110 | Which whitespace character separates the words does not matter to `split()`. |
| PyStr.SplitJoinSpaced | src/document.py:110 | `" ".join(ws).split() == ws` for words `ws` that are nonempty and hold no whitespace. |
| PyStr.ReplaceCharPointwise | src/document.py:110 | Replacing one character by another maps the string character by character. |
| DocumentSpec.TokensCount | src/document.py:110 | An entry counts for as many words as `split()` finds in its raw text, since the replace and the strip change nothing. It counts for none exactly when its text is all whitespace. |
| PyStr.SplitOn | search_for_keywords.py:243 | `split('\n')` gives at least one piece, and no piece contains the separator. |
| PyStr.JoinSplitOn | search_for_keywords.py:243 | Joining the pieces of a split gives the string back. |
| PyStr.SplitOnJoin | search_for_keywords.py:243 | Splitting a join of separator-free pieces gives the pieces back. |
| PyStr.ReplaceAllChars | src/document.py:185-186 | A character in neither the input nor the replacement is not in the result. |
| PyStr.ReplaceCharRemoves | src/document.py:185 | Replacing a character by text without it removes every occurrence. |
| PyStr.ReplaceAbsent | src/document.py:185-186 | Replacing a pattern that does not occur changes nothing. |
| PyStr.ParseInt | src/document.py:167 | A value is read only from a string that is not blank. |
| PyStr.ParseIntDecimal | src/document.py:167 | `int(str(n)) == n` for every integer `n`, negative ones included. |
| PyStr.ParseIntRejects | src/document.py:167 | `int()` raises on a stripped string with a character that is neither a digit nor an underscore, nor a sign in front: `int("1.5")` raises. |
| PyStr.ParseIntZero | src/document.py:167 | `int` of a string that strips to "0" is 0. |
| PyPath.RFind | src/document.py:16 | Gives the index of the last occurrence of the character, or -1. |
| PyPath.Basename | src/document.py:15 | The base name is the tail of the path after its last '/', and contains no '/'. |
| PyPath.BasenameIsTail | src/document.py:15 | The base name is either the whole path or starts right after a '/'. Together with Basename's contract, that '/' is the last one. |
| PyPath.SuffixIsPdf | src/document.py:16 | The suffix is exactly ".pdf" when the name ends in ".pdf" after at least one other character, and only then. The check is case-sensitive. |
| PySeq.Slice | search_for_keywords.py:178-183 | A Python slice is never longer than the list. |
| PySeq.SliceInRange | search_for_keywords.py:178-184 | Within the list, a Python slice is the plain slice when the bounds do not cross, and empty otherwise. |
| PySeq.Reverse | src/document.py:58 | `reversed` puts the list's entries in reverse order. |
| Fitz.PageAtWrap | src/document.py:76 | `doc[i - len(doc)]` is `doc[i]`, so `doc[-1]` is the last page. |
| Wrappers.AllOkValues | src/document.py:44-85 | A loop that appends values until the first exception succeeds exactly when every step does, and then yields their values pointwise. |
| Wrappers.AllOkFirstFailure | src/document.py:44-85 | A failed loop reports the exception of the first step that failed. |
| Wrappers.AllOkAppend | src/document.py:44-85 | Two runs of such a loop, one after the other: the values of both, or the first exception. |

## Left out

- The GUI is not modelled: the PySimpleGUI layout, the event loop, rendering, pixmaps and display lists. The warning, summary and progress texts are not modelled either.
- Progress percentages are not modelled: they use float division and rounding.
- PyMuPDF internals are inputs. `get_text("words")`, `search_for` and `get_textbox` are given data and functions, not computed. `fitz.open` is an oracle on the path.
- `doc.close()`, `file.close()` and `highlight_document` are not modelled: they are foreign calls whose effects on the model are nil.
- Threads are not modelled. The search runs to completion inside `SearchEvent`, and the other thread's writes to `searching` are the oracle `stillSearching`.
- `os.listdir`, `sorted` of the names and `os.path.join` are not modelled: the file paths are an input. `os.path.isdir` is the input `folderIsDir`.
- `os.path.relpath` is an uninterpreted function, because it depends on the working directory.
- Logging is not modelled: the logged exception of the batch loop in ifrc_keyword_searcher/document_searcher.py is only the swallowed outcome.
- The `word_pad` parse of the window value, with its default of 10, is not modelled; the pad is an input.
- ifrc_keyword_searcher/search_for_keywords.py is not part of this model: it is a GUI event loop, and its keyword parsing and page clamp repeat those of search_for_keywords.py.
- The logging setup of ifrc_keyword_searcher/settings.py is not part of this model. Only `init` is modelled.
- CSV export, the saved user settings, temporary files, the browser, the NEXT/PREV page events and the viewer's page rendering are not modelled: they are GUI or file output.
- KeywordSearchApp.App.SearchEvent: the keyword checks at lines 249-257 never stop a search with a folder that exists, because every test there requires `not search_folder`, which is false for an existing folder; the model therefore has no branch for them.
- KeywordSearchApp.App.constructor: `keyword_results` and `keyword_instances` start as None at line 216. The model starts them empty, because every search sets both before reading them. `results_summary` starts at zero in the model, while the source defines it only with the first search.
- KeywordSearchApp.ClampPage: with no pages, the source moves a non-negative page to -1. The model states that behaviour but no valid-index property for it.
- KeywordSearchApp.App.LoopFilesSearchKeywords: when `fitz.open` raises inside the loop, the exception escapes with the flag still set; the model returns it as the loop's error.
- KeywordSearchApp.App.AddFileResults: the source stores a file's instance lists page by page, as it scans. The model stores the finished map at once, which gives the same final state.
- KeywordSearchApp.SearchTotals: there is no lemma that a scan which goes through stores a list for every page. That fact is ScanGoesThrough, and it is not carried through to the globals.
- DocumentSpec.TidyText has no contract of its own. Its properties are the lemmas TidyTextClean and TidyTextIdempotent.
- DocumentSpec.HitTexts states only its length. The value at each hit is HitTextsAt.
- DocumentSpec.InsertByPosition states only its length. The permutation is InsertPermutes, and sortedness is InsertSorted.
- Scan.FirstFalse states only its bound. The stopping property is FirstFalseFacts and FirstFalseUnique.
- PyStr.ParseInt: its own contract states only that a value comes from a non-blank string. Its value is stated by ParseIntDecimal and ParseIntZero, and rejection by ParseIntRejects. There is no lemma for misplaced underscores. It reads only ASCII digits, while Python's `int` also accepts other Unicode decimal digits.
- PyStr.IsSpace is the fixed list of characters for which Python's `isspace` holds. No Unicode database is consulted.
- PyPath.Basename splits only on '/'. Windows separators are not modelled.
- LegacySpec.InstancesUpTo cuts the keyword list at the failing keyword plus one, and is tolerant when that reaches the end of the list.
- DocumentSpec.Walk and the other walk functions take the per-entry weight as a parameter. Only `Document.SearchForKeywords` fixes it to `Tokens`, the token count of the source.

/**
  The search of one open PDF inside `loop_files_search_keywords` of search_for_keywords.py: the
  word lists of the pages, then page by page and keyword by keyword the rectangles `search_for`
  returns, the bounding words of each, the context by slice arithmetic and the text block of the
  row. Each method is proved equal to the matching function of `LegacySpec`.
 */
module LegacySearch {
  import opened Wrappers
  import opened PySeq
  import opened Fitz
  import opened Results
  import opened Scan
  import opened DocumentSpec
  import opened LegacySpec
  import D = Document

  /** `pdf_words`: the raw word list of every page, by page number. */
  predicate WordLists(pdf: Pdf, words: seq<seq<Word>>) {
    |words| == |pdf.pages| && forall p :: 0 <= p < |words| ==> words[p] == pdf.pages[p].words
  }

  /** `for page in file: pdf_words[page.number] = list(page.get_text("words"))` */
  method PageWords(pdf: Pdf) returns (words: seq<seq<Word>>)
    ensures WordLists(pdf, words)
  {
    words := [];
    for p := 0 to |pdf.pages|
      invariant |words| == p
      invariant forall q :: 0 <= q < p ==> words[q] == pdf.pages[q].words
    {
      words := words + [pdf.pages[p].words];
    }
  }

  /** `words_before` for a hit starting at word `istart` of page `p` (search_for_keywords.py, lines 178-180). */
  method ContextBefore(pdf: Pdf, words: seq<seq<Word>>, p: nat, istart: nat, pad: int) returns (before: seq<Word>)
    requires WordLists(pdf, words) && p < |pdf.pages|
    ensures before == WordsBefore(pdf, p, istart, pad)
  {
    before := Slice(words[p], if istart - pad < 0 then 0 else istart - pad, istart);
    if |before| < pad && p > 0 {
      var prev := words[p - 1];
      before := Slice(prev, |before| - pad, |prev|);
    }
  }

  /** `words_after` for a hit ending at word `iend` of page `p` (search_for_keywords.py, lines 181-183). */
  method ContextAfter(pdf: Pdf, words: seq<seq<Word>>, p: nat, iend: nat, pad: int) returns (after: seq<Word>)
    requires WordLists(pdf, words) && p < |pdf.pages|
    ensures after == WordsAfter(pdf, p, iend, pad)
  {
    after := Slice(words[p], iend + 1, iend + pad + 1);
    if |after| < pad && p < |words| - 1 {
      after := after + Slice(words[p + 1], 0, pad - |after|);
    }
  }

  /**
    The text of hit `h`: its bounding words, `words_before` (replaced by a tail of the previous
    page when short), `words_after` (topped up from the next page when short), the block, and
    the cleaned text of the full-width box around it.
   */
  method HitTextOf(pdf: Pdf, words: seq<seq<Word>>, h: Hit, pad: int) returns (text: Result<string>)
    requires WordLists(pdf, words) && h.page < |pdf.pages|
    ensures text == LegacySpec.HitText(pdf, h, pad)
  {
    var ws := words[h.page];
    var istart, iend := D.Document.FindBoundingWords(ws, h.rect);
    if istart.None? {
      return Raise(TypeError);
    }
    var before := ContextBefore(pdf, words, h.page, istart.value, pad);
    if iend.None? {
      return Raise(TypeError);
    }
    var after := ContextAfter(pdf, words, h.page, iend.value, pad);
    var block := before + Slice(ws, istart.value, iend.value + 1) + after;
    assert block == Block(pdf, h.page, istart.value, iend.value, pad);
    if block == [] {
      return Raise(IndexError);
    }
    var box := pdf.textbox(h.page, Rect(0.0, block[0].y0, pdf.pages[h.page].width, block[|block| - 1].y1));
    text := Ok(Clean(box));
  }

  /**
    The rows of the `instances` of `keyword` on page `p`, rectangle by rectangle; the first
    exception ends the loop.
   */
  method KeywordRows(job: Job, words: seq<seq<Word>>, p: nat, keyword: string, instances: seq<Rect>) returns (r: Result<seq<Row>>)
    requires WordLists(job.pdf, words) && p < |job.pdf.pages|
    requires instances == job.pdf.searchFor(p, keyword)
    ensures OnPages(job.pdf, KeywordHits(job.pdf, p, keyword))
    ensures r == HitRows(job, KeywordHits(job.pdf, p, keyword))
  {
    ghost var hs := KeywordHits(job.pdf, p, keyword);
    assert OnPages(job.pdf, hs);
    ghost var ts := Texts(job, hs);
    var rows: seq<Row> := [];
    assert hs[..0] == [] && ts[..0] == [];
    for j := 0 to |instances|
      invariant LegacySpec.Rows(job.filename, hs[..j], ts[..j]) == Ok(rows)
    {
      var text := HitTextOf(job.pdf, words, Hit(p, keyword, instances[j]), job.pad);
      assert hs[j] == Hit(p, keyword, instances[j]) && text == ts[j];
      if text.Raise? {
        LegacySpec.RowsStepRaise(job.filename, hs, ts, j);
        return Raise(text.error);
      }
      LegacySpec.RowsStepOk(job.filename, hs, ts, j, rows);
      ghost var row := Row(job.filename, hs[j].page + 1, hs[j].keyword, ts[j].value);
      assert row == Row(job.filename, p + 1, keyword, text.value);
      rows := rows + [Row(job.filename, p + 1, keyword, text.value)];
      assert LegacySpec.Rows(job.filename, hs[..j + 1], ts[..j + 1]) == Ok(rows);
    }
    assert hs[..|instances|] == hs && ts[..|instances|] == ts;
    r := Ok(rows);
  }

  /**
    Page `p`: `keyword_instances[filename][pageno]` starts empty and each keyword's rectangles
    are added to it before its rows are read; the page's rows, or the exception of the first
    keyword whose rows raise, with the rectangles up to and including that keyword's.
   */
  method ScanPage(job: Job, words: seq<seq<Word>>, p: nat) returns (r: Result<seq<Row>>, rects: seq<Rect>)
    requires WordLists(job.pdf, words) && p < |job.pdf.pages|
    ensures OnPages(job.pdf, PageHits(job.pdf, p, job.keywords))
    ensures r == HitRows(job, PageHits(job.pdf, p, job.keywords))
    ensures r.Ok? == PageFine(job)(p)
    ensures r.Ok? ==> rects == PageRects(job.pdf, p, job.keywords)
    ensures r.Raise? ==> FirstFalse(|job.keywords|, KeywordFine(job, p)) < |job.keywords|
    ensures r.Raise? ==> rects == PageRects(job.pdf, p, job.keywords[..FirstFalse(|job.keywords|, KeywordFine(job, p)) + 1])
  {
    PageHitsOnPages(job.pdf, p, job.keywords);
    rects := [];
    var rows: seq<Row> := [];
    var k := 0;
    while k < |job.keywords|
      invariant k <= |job.keywords|
      invariant forall j :: 0 <= j < k ==> KeywordFine(job, p)(j)
      invariant OnPages(job.pdf, PageHits(job.pdf, p, job.keywords[..k]))
      invariant HitRows(job, PageHits(job.pdf, p, job.keywords[..k])) == Ok(rows)
      invariant rects == PageRects(job.pdf, p, job.keywords[..k])
    {
      var keyword := job.keywords[k];
      var instances := job.pdf.searchFor(p, keyword);
      PageHitsSnoc(job.pdf, p, job.keywords, k);
      if |instances| > 0 {
        rects := rects + instances;
      } else {
        assert rects + instances == rects;
      }
      var found := KeywordRows(job, words, p, keyword, instances);
      if found.Raise? {
        KeywordStepRaise(job, p, k);
        FirstFalseUnique(|job.keywords|, KeywordFine(job, p), k);
        assert job.keywords[..FirstFalse(|job.keywords|, KeywordFine(job, p)) + 1] == job.keywords[..k + 1];
        return Raise(found.error), rects;
      }
      assert KeywordFine(job, p)(k);
      HoldsThrough(KeywordFine(job, p), k);
      KeywordStepOk(job, p, k, rows, found.value);
      rows := rows + found.value;
      k := k + 1;
    }
    assert job.keywords[..k] == job.keywords;
    FirstFalseUnique(|job.keywords|, KeywordFine(job, p), k);
    r := Ok(rows);
  }

  /**
    Page `p` of the page loop, after pages whose rows were all found: the instance map with page
    `p`'s list, and what the page adds, or the exception with which it ends the file's search.
   */
  method ScanAt(job: Job, words: seq<seq<Word>>, p: nat, rows: seq<Row>, inst: PageInstances) returns (pageRows: Result<seq<Row>>, inst': PageInstances)
    requires WordLists(job.pdf, words) && p < |job.pdf.pages|
    requires PagesFine(job, p)
    requires OnPages(job.pdf, Hits(job.pdf, job.keywords, p)) && HitRows(job, Hits(job.pdf, job.keywords, p)) == Ok(rows)
    requires inst == Instances(job.pdf, job.keywords, p)
    ensures pageRows.Raise? ==> pageRows == FileRows(job) && inst' == ScanInstances(job)
    ensures pageRows.Ok? ==> PagesFine(job, p + 1)
    ensures pageRows.Ok? ==> OnPages(job.pdf, Hits(job.pdf, job.keywords, p + 1))
    ensures pageRows.Ok? ==> HitRows(job, Hits(job.pdf, job.keywords, p + 1)) == Ok(rows + pageRows.value)
    ensures pageRows.Ok? ==> inst' == Instances(job.pdf, job.keywords, p + 1)
  {
    var rects;
    inst' := inst[p := []];
    pageRows, rects := ScanPage(job, words, p);
    inst' := inst'[p := rects];
    assert inst' == inst[p := rects];
    if pageRows.Raise? {
      ScanStopsAt(job, p);
      FileRowsRaise(job, p);
      return;
    }
    HoldsThrough(PageFine(job), p);
    PageStepOk(job, p, rows, pageRows.value);
    InstancesSnoc(job.pdf, job.keywords, p);
  }

  /**
    The page loop: every page gets its instance list and adds its rows to `file_results`; the
    first exception ends the search of the file, with the instance lists of the pages reached.
   */
  method ScanFile(job: Job, words: seq<seq<Word>>) returns (found: Result<seq<Row>>, inst: PageInstances)
    requires WordLists(job.pdf, words)
    ensures found == FileRows(job)
    ensures inst == ScanInstances(job)
  {
    var rows: seq<Row> := [];
    inst := map[];
    var p := 0;
    while p < |job.pdf.pages|
      invariant p <= |job.pdf.pages|
      invariant PagesFine(job, p)
      invariant OnPages(job.pdf, Hits(job.pdf, job.keywords, p))
      invariant HitRows(job, Hits(job.pdf, job.keywords, p)) == Ok(rows)
      invariant inst == Instances(job.pdf, job.keywords, p)
    {
      var pageRows;
      pageRows, inst := ScanAt(job, words, p, rows, inst);
      if pageRows.Raise? {
        return pageRows, inst;
      }
      rows := rows + pageRows.value;
      p := p + 1;
    }
    ScanGoesThrough(job);
    found := Ok(rows);
  }
}

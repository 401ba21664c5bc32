/**
  `Document` (src/document.py): one open PDF, its word index, and the keyword-in-context search
  over it. Each method does what the source's loops do and is proved equal to the matching
  function of `DocumentSpec`, whose properties are proved there.
 */
module Document {
  import opened Wrappers
  import opened PySeq
  import opened PyPath
  import opened Fitz
  import opened Results
  import opened DocumentSpec

  class Document {
    /** `os.path.basename(filepath)` */
    const filename: string
    /** `pathlib.Path(filename).suffix` */
    const fileExtension: string
    /** What `fitz.open(filepath)` opened. */
    const doc: Pdf
    /** `self.words`, set by `search_for_keywords`; empty until then. */
    var words: map<nat, seq<Word>>

    /** The file at `filepath`, whose contents `fitz.open` read as `pdf`. */
    constructor (filepath: string, pdf: Pdf)
      ensures filename == Basename(filepath)
      ensures fileExtension == Suffix(Basename(filepath))
      ensures doc == pdf
      ensures words == map[]
    {
      filename := Basename(filepath);
      fileExtension := Suffix(Basename(filepath));
      doc := pdf;
      words := map[];
    }

    /**
      `iterate_words_limit(words, limit)`: adds up the token counts of the entries until the count
      reaches `limit`, and returns the count and the last entry it looked at.
     */
    static method IterateWordsLimit(ws: seq<Word>, limit: int, weight: Word -> nat) returns (count: nat, word: Option<Word>)
      ensures (count, word) == Walk(ws, limit, weight)
    {
      count, word := 0, None;
      var i := 0;
      while i < |ws|
        invariant 0 <= i <= |ws|
        invariant i + Visited(ws[i..], limit - count, weight) == Visited(ws, limit, weight)
        invariant count == SumWeights(ws[..i], weight)
        invariant word == if i == 0 then None else Some(ws[i - 1])
        invariant i > 0 ==> count < limit
      {
        word := Some(ws[i]);
        SumWeightsSnoc(ws[..i], ws[i], weight);
        assert ws[..i + 1] == ws[..i] + [ws[i]];
        assert ws[i..][1..] == ws[i + 1..];
        count := count + weight(ws[i]);
        i := i + 1;
        if count >= limit {
          break;
        }
      }
    }

    /**
      `find_bounding_words(words, rect)`: the index of the first entry containing the left end of
      `rect` and of the first containing its right end, stopping once both are found.
     */
    static method FindBoundingWords(ws: seq<Word>, rect: Rect) returns (istart: Option<nat>, iend: Option<nat>)
      ensures istart == FirstCovering(ws, rect, Left)
      ensures iend == FirstCovering(ws, rect, Right)
    {
      istart, iend := None, None;
      var i := 0;
      while i < |ws|
        invariant 0 <= i <= |ws|
        invariant istart.Some? ==> istart == FirstCovering(ws, rect, Left)
        invariant istart.None? ==> forall j :: 0 <= j < i ==> !Covers(ws[j], rect, Left)
        invariant iend.Some? ==> iend == FirstCovering(ws, rect, Right)
        invariant iend.None? ==> forall j :: 0 <= j < i ==> !Covers(ws[j], rect, Right)
      {
        if istart.Some? && iend.Some? {
          break;
        }
        if istart.None? && Covers(ws[i], rect, Left) {
          istart := Some(i);
        }
        if iend.None? && Covers(ws[i], rect, Right) {
          iend := Some(i);
        }
        i := i + 1;
      }
    }

    /**
      `get_words()`: every page's entries sorted by `(y0, x0)`, with a detached page number
      dropped; a page on which the heuristic raises gets no entry.
     */
    method GetWords() returns (docWords: map<nat, seq<Word>>)
      ensures docWords == WordIndex(doc.pages)
    {
      docWords := map[];
      for p := 0 to |doc.pages|
        invariant docWords == PageIndex(doc.pages[..p], PageWords)
      {
        PageIndexSnoc(doc.pages, PageWords, p);
        var pageWords := SortByPosition(doc.pages[p].words);
        var kept := StripPageNumber(pageWords);
        if kept.None? {
          continue;
        }
        docWords := docWords[p := kept.value];
      }
      assert doc.pages[..|doc.pages|] == doc.pages;
    }

    /**
      The main text box of a hit at `rect` on page `p`, whose entries are `ws`, and the counts of
      the walks either side of it; the box fails as `search_for_keywords` does.
     */
    method MainBlock(p: nat, ws: seq<Word>, rect: Rect, wordPad: int, weight: Word -> nat)
      returns (main: Result<Box>, countLeft: nat, countRight: nat)
      requires p < |doc.pages|
      ensures main == MainBox(doc, p, ws, rect, wordPad, weight)
      ensures main.Ok? ==> FirstCovering(ws, rect, Right).Some?
      ensures main.Ok? ==> countLeft == LeftCount(ws, rect, wordPad, weight)
      ensures main.Ok? ==> countRight == RightCount(ws, FirstCovering(ws, rect, Right).value, wordPad, weight)
    {
      var istart, iend := FindBoundingWords(ws, rect);
      var first;
      countLeft, first := IterateWordsLimit(LeftContext(ws, istart), wordPad, weight);
      if iend.None? {
        MainBoxParts(doc, p, ws, rect, wordPad, weight, istart, iend, first, None);
        return Raise(TypeError), countLeft, 0;
      }
      var last;
      countRight, last := IterateWordsLimit(ws[iend.value + 1..], wordPad, weight);
      MainBoxParts(doc, p, ws, rect, wordPad, weight, istart, iend, first, last);
      if first.None? && istart.None? {
        return Raise(TypeError), countLeft, countRight;
      }
      var top := if first.Some? then first.value.y0 else ws[istart.value].y0;
      var bottom := if last.Some? then last.value.y1 else ws[iend.value].y1;
      main := Ok(Box(p, Rect(0.0, top, doc.pages[p].width, bottom)));
    }

    /** The box on the page before `p` when `wanted`, walking back from its end with `budget`. */
    method PrevPageBlock(p: nat, budget: int, wanted: bool, weight: Word -> nat) returns (r: Result<seq<Box>>)
      requires p < |doc.pages| && (wanted ==> p > 0)
      ensures r == PrevBlock(doc, words, p, budget, wanted, weight)
    {
      if !wanted {
        return Ok([]);
      }
      if p - 1 !in words {
        return Raise(KeyError);
      }
      var count, first := IterateWordsLimit(Reverse(words[p - 1]), budget, weight);
      if first.None? {
        return Raise(TypeError);
      }
      var prev := doc.pages[p - 1];
      r := Ok([Box(p - 1, Rect(0.0, first.value.y0, prev.width, prev.height))]);
    }

    /** The box on the page after `p` when `wanted`, walking forward from its start with `budget`; its width is that of `doc[p - 1]`. */
    method NextPageBlock(p: nat, budget: int, wanted: bool, weight: Word -> nat) returns (r: Result<seq<Box>>)
      requires p < |doc.pages| && (wanted ==> p + 1 < |doc.pages|)
      ensures r == NextBlock(doc, words, p, budget, wanted, weight)
    {
      if !wanted {
        return Ok([]);
      }
      if p + 1 !in words {
        return Raise(KeyError);
      }
      var count, last := IterateWordsLimit(words[p + 1], budget, weight);
      if last.None? {
        return Raise(TypeError);
      }
      r := Ok([Box(p + 1, Rect(0.0, 0.0, PageAt(doc, p - 1).width, last.value.y1))]);
    }

    /**
      The untidied text block of the hit `h`, as the loop body of `search_for_keywords` computes
      it from `self.words`: the main block, prefixed by the previous page's block and followed by
      the next page's, each joined with a blank line.
     */
    method HitTextOf(h: Hit, wordPad: int, weight: Word -> nat) returns (text: Result<string>)
      requires h.page < |doc.pages|
      ensures text == HitText(doc, words, h, wordPad, weight)
    {
      var p := h.page;
      if p !in words {
        HitTextMissingPage(doc, words, h, wordPad, weight);
        return Raise(KeyError);
      }
      var main, countLeft, countRight := MainBlock(p, words[p], h.rect, wordPad, weight);
      if main.Raise? {
        HitTextMainFails(doc, words, h, wordPad, weight);
        return Raise(main.error);
      }
      HitTextNeighbours(doc, words, h, wordPad, weight);
      text := TextAround(p, main.value, countLeft, countRight, wordPad, weight);
    }

    /** The text of the main box `main` of a hit at `rect` on page `p`, with the neighbour blocks its walks' counts call for. */
    method TextAround(p: nat, main: Box, countLeft: nat, countRight: nat, wordPad: int, weight: Word -> nat) returns (text: Result<string>)
      requires p < |doc.pages|
      ensures text == (var boxes :- AroundMain(doc, words, p, countLeft, countRight, wordPad, weight, main); Ok(JoinBlocks(doc, boxes)))
    {
      var block := doc.textbox(main.page, main.rect);
      var before := PrevPageBlock(p, wordPad - countLeft, countLeft < wordPad && p > 0, weight);
      if before.Raise? {
        return Raise(before.error);
      }
      if before.value != [] {
        block := doc.textbox(before.value[0].page, before.value[0].rect) + "\n\n" + block;
      }
      var after := NextPageBlock(p, wordPad - countRight, countRight < wordPad && p < |doc.pages| - 1, weight);
      if after.Raise? {
        return Raise(after.error);
      }
      if after.value != [] {
        block := block + "\n\n" + doc.textbox(after.value[0].page, after.value[0].rect);
      }
      ghost var boxes := before.value + [main] + after.value;
      assert AroundMain(doc, words, p, countLeft, countRight, wordPad, weight, main) == Ok(boxes);
      JoinAround(doc, before.value, main, after.value);
      assert block == JoinBlocks(doc, boxes);
      text := Ok(block);
    }

    /**
      The rows of the hits of `keyword` on page `p`, rectangle by rectangle in the order
      `search_for` returns them; the first exception ends the loop.
     */
    method KeywordRows(p: nat, keyword: string, wordPad: int, weight: Word -> nat) returns (r: Result<seq<Row>>)
      requires p < |doc.pages|
      ensures OnPages(doc, KeywordHits(doc, p, keyword))
      ensures r == Rows(filename, KeywordHits(doc, p, keyword), HitTexts(doc, words, KeywordHits(doc, p, keyword), wordPad, weight))
    {
      var instances := doc.searchFor(p, keyword);
      ghost var hs := KeywordHits(doc, p, keyword);
      assert OnPages(doc, hs);
      ghost var ts := HitTexts(doc, words, hs, wordPad, weight);
      var rows: seq<Row> := [];
      assert hs[..0] == [] && ts[..0] == [];
      for j := 0 to |instances|
        invariant Rows(filename, hs[..j], ts[..j]) == Ok(rows)
      {
        var h := Hit(p, keyword, instances[j]);
        var text := HitTextOf(h, wordPad, weight);
        HitTextsAt(doc, words, hs, wordPad, weight, j);
        assert text == ts[j];
        if text.Raise? {
          RowsStepRaise(filename, hs, ts, j);
          return Raise(text.error);
        }
        RowsStepOk(filename, hs, ts, j, rows);
        assert hs[j] == h;
        rows := rows + [HitRow(filename, h, text).value];
      }
      assert hs[..|instances|] == hs && ts[..|instances|] == ts;
      r := Ok(rows);
    }

    /**
      The rows of page `p`, keyword by keyword, and the page's instance list: the rectangles
      of every keyword, concatenated (only meaningful when the rows are).
     */
    method PageRows(p: nat, keywords: seq<string>, wordPad: int, weight: Word -> nat) returns (r: Result<seq<Row>>, rects: seq<Rect>)
      requires p < |doc.pages|
      ensures OnPages(doc, PageHits(doc, p, keywords))
      ensures r == Rows(filename, PageHits(doc, p, keywords), HitTexts(doc, words, PageHits(doc, p, keywords), wordPad, weight))
      ensures r.Ok? ==> rects == PageRects(doc, p, keywords)
    {
      PageHitsOnPages(doc, p, keywords);
      rects := [];
      var rows: seq<Row> := [];
      for k := 0 to |keywords|
        invariant OnPages(doc, PageHits(doc, p, keywords[..k]))
        invariant Rows(filename, PageHits(doc, p, keywords[..k]), HitTexts(doc, words, PageHits(doc, p, keywords[..k]), wordPad, weight)) == Ok(rows)
        invariant rects == PageRects(doc, p, keywords[..k])
      {
        var keyword := keywords[k];
        var instances := doc.searchFor(p, keyword);
        PageHitsSnoc(doc, p, keywords, k);
        PageHitsOnPages(doc, p, keywords[..k + 1]);
        ghost var done, more := PageHits(doc, p, keywords[..k]), KeywordHits(doc, p, keyword);
        if |instances| > 0 {
          rects := rects + instances;
          var kr := KeywordRows(p, keyword, wordPad, weight);
          SearchRowsAppend(doc, words, filename, done, more, wordPad, weight);
          if kr.Raise? {
            PageHitsPrefix(doc, p, keywords, k + 1);
            SearchRowsPrefix(doc, words, filename, done + more, PageHits(doc, p, keywords), wordPad, weight);
            return Raise(kr.error), rects;
          }
          rows := rows + kr.value;
        } else {
          assert more == [] && done + more == done;
          assert rects + instances == rects;
        }
      }
      assert keywords[..|keywords|] == keywords;
      r := Ok(rows);
    }

    /**
      `search_for_keywords(keywords, word_pad)`: stores the word index in `words`, then searches
      it page by page. The search counts each entry's words with `Tokens`.
     */
    method SearchForKeywords(keywords: seq<string>, wordPad: int) returns (r: Result<(seq<Row>, PageInstances)>)
      modifies this
      ensures words == WordIndex(doc.pages)
      ensures r == Search(doc, filename, keywords, wordPad, Tokens)
    {
      words := GetWords();
      r := SearchPages(keywords, wordPad, Tokens);
    }

    /**
      Page `p` of the page loop, after pages whose rows were all found: the rows it adds and the
      instance map with its list, or the exception with which it ends the search.
     */
    method SearchPage(p: nat, keywords: seq<string>, wordPad: int, weight: Word -> nat, rows: seq<Row>, inst: PageInstances)
      returns (pr: Result<seq<Row>>, inst': PageInstances)
      requires p < |doc.pages|
      requires OnPages(doc, Hits(doc, keywords, p))
      requires Rows(filename, Hits(doc, keywords, p), HitTexts(doc, words, Hits(doc, keywords, p), wordPad, weight)) == Ok(rows)
      requires inst == Instances(doc, keywords, p)
      ensures pr.Raise? ==> SearchIn(doc, words, filename, keywords, wordPad, weight) == Raise(pr.error)
      ensures pr.Ok? ==> OnPages(doc, Hits(doc, keywords, p + 1))
      ensures pr.Ok? ==> Rows(filename, Hits(doc, keywords, p + 1), HitTexts(doc, words, Hits(doc, keywords, p + 1), wordPad, weight)) == Ok(rows + pr.value)
      ensures pr.Ok? ==> inst' == Instances(doc, keywords, p + 1)
    {
      var rects;
      pr, rects := PageRows(p, keywords, wordPad, weight);
      inst' := inst;
      if pr.Raise? {
        SearchStop(doc, words, filename, keywords, wordPad, weight, p);
        return;
      }
      SearchStep(doc, words, filename, keywords, wordPad, weight, p, rows, pr.value);
      InstancesSnoc(doc, keywords, p);
      inst' := inst[p := rects];
    }

    /**
      The page loop of `search_for_keywords` over `words`: gives each page an instance list and
      appends its rows; the first exception ends the search.
     */
    method SearchPages(keywords: seq<string>, wordPad: int, weight: Word -> nat) returns (r: Result<(seq<Row>, PageInstances)>)
      ensures r == SearchIn(doc, words, filename, keywords, wordPad, weight)
    {
      var rows: seq<Row> := [];
      var inst: PageInstances := map[];
      HitsOnPages(doc, keywords);
      for p := 0 to |doc.pages|
        invariant OnPages(doc, Hits(doc, keywords, p))
        invariant Rows(filename, Hits(doc, keywords, p), HitTexts(doc, words, Hits(doc, keywords, p), wordPad, weight)) == Ok(rows)
        invariant inst == Instances(doc, keywords, p)
      {
        var pr;
        pr, inst := SearchPage(p, keywords, wordPad, weight, rows, inst);
        if pr.Raise? {
          return Raise(pr.error);
        }
        rows := rows + pr.value;
      }
      SearchDone(doc, words, filename, keywords, wordPad, weight, rows);
      r := Ok((rows, inst));
    }
  }
}

/**
  What `Document` (src/document.py) computes, as functions of the document:
  the text tidier, the budgeted word walk, the bounding-word search, the sorted per-page
  word index with its page-number heuristic, and the keyword-in-context rows.
  The class in document.dfy is proved to compute exactly these.
 */
module DocumentSpec {
  import opened Wrappers
  import opened PyStr
  import opened PySeq
  import opened Fitz
  import opened Results

  // ---------------------------------------------------------------------------
  // tidy_text
  // ---------------------------------------------------------------------------

  const NBSP: string := "\U{A0}"
  /** A private-use bullet glyph followed by a space and a line break, as PDF text layers produce for list items. */
  const BULLET_BREAK: string := "\U{F0B7} \n"
  const BULLET_DASH: string := " - "

  /**
    `tidy_text`: non-breaking spaces become spaces, then every bullet break becomes `" - "`,
    then both ends are stripped.
   */
  function TidyText(txt: string): string {
    Strip(ReplaceAll(ReplaceAll(txt, NBSP, " "), BULLET_BREAK, BULLET_DASH))
  }

  /** Tidied text has no surrounding whitespace, no non-breaking space and no bullet break. */
  lemma {:induction false} TidyTextClean(txt: string)
    ensures var r := TidyText(txt);
      Stripped(r) && '\U{A0}' !in r && !Occurs(r, BULLET_BREAK)
  {
    var spaced := ReplaceAll(txt, NBSP, " ");
    var dashed := ReplaceAll(spaced, BULLET_BREAK, BULLET_DASH);
    ReplaceCharRemoves(txt, '\U{A0}', " ");
    ReplaceAllChars(spaced, BULLET_BREAK, BULLET_DASH, '\U{A0}');
    BulletBreakGone(spaced);
    StripKeepsAbsence(dashed, '\U{A0}', BULLET_BREAK);
  }

  /** Replacing the bullet breaks leaves none behind: a replacement `" - "` never completes a new one. */
  lemma {:induction false} BulletBreakGone(s: string)
    ensures !Occurs(ReplaceAll(s, BULLET_BREAK, BULLET_DASH), BULLET_BREAK)
    decreases |s|
  {
    var out := ReplaceAll(s, BULLET_BREAK, BULLET_DASH);
    if Occurs(out, BULLET_BREAK) {
      var i :| 0 <= i <= |out| && OccursAt(out, BULLET_BREAK, i);
      assert out[i] == '\U{F0B7}' && out[i + 1] == ' ' && out[i + 2] == '\n' by {
        assert out[i..i + 3] == BULLET_BREAK;
        assert out[i..i + 3][0] == out[i] && out[i..i + 3][1] == out[i + 1] && out[i..i + 3][2] == out[i + 2];
      }
      if StartsWith(s, BULLET_BREAK) {
        var rest := ReplaceAll(s[3..], BULLET_BREAK, BULLET_DASH);
        assert out == BULLET_DASH + rest;
        if i >= 3 {
          OccursAtShift(BULLET_DASH, rest, BULLET_BREAK, i);
          BulletBreakGone(s[3..]);
          assert false;
        }
      } else {
        var u := s[1..];
        var rest := ReplaceAll(u, BULLET_BREAK, BULLET_DASH);
        assert out == [s[0]] + rest;
        if i >= 1 {
          OccursAtShift([s[0]], rest, BULLET_BREAK, i);
          BulletBreakGone(u);
          assert false;
        }
        BreakAtHead(s);
      }
    }
  }

  /** A bullet break at the head of the replaced text was one at the head of the original. */
  lemma {:induction false} BreakAtHead(s: string)
    ensures OccursAt(ReplaceAll(s, BULLET_BREAK, BULLET_DASH), BULLET_BREAK, 0) ==> StartsWith(s, BULLET_BREAK)
  {
    var out := ReplaceAll(s, BULLET_BREAK, BULLET_DASH);
    assert OccursAt(out, BULLET_BREAK, 0) ==> out[0] == '\U{F0B7}' && out[1] == ' ' && out[2] == '\n' by {
      if OccursAt(out, BULLET_BREAK, 0) {
        assert out[..3][0] == out[0] && out[..3][1] == out[1] && out[..3][2] == out[2];
      }
    }
    if |s| >= 3 && !StartsWith(s, BULLET_BREAK) {
      var u := s[1..];
      var v := u[1..];
      assert out == [s[0]] + ReplaceAll(u, BULLET_BREAK, BULLET_DASH);
      if StartsWith(u, BULLET_BREAK) {
        assert out[2] == '-';
      } else {
        assert out == [s[0], u[0]] + ReplaceAll(v, BULLET_BREAK, BULLET_DASH);
        if StartsWith(v, BULLET_BREAK) {
          assert out[2] == ' ';
        } else {
          assert out[..3] == [s[0], u[0], v[0]];
          assert s[..3] == [s[0], u[0], v[0]];
        }
      }
    } else if |s| < 3 && !StartsWith(s, BULLET_BREAK) {
      ReplaceShort(s);
    }
  }

  /** A string shorter than a bullet break has none to replace. */
  lemma {:induction false} ReplaceShort(s: string)
    requires |s| < 3
    ensures ReplaceAll(s, BULLET_BREAK, BULLET_DASH) == s
  {
    if s != [] {
      assert s[1..] == [] || ReplaceAll(s[1..], BULLET_BREAK, BULLET_DASH) == s[1..] by {
        if s[1..] != [] { assert s[1..][1..] == []; }
      }
    }
  }

  /** Tidying is idempotent. */
  lemma {:induction false} TidyTextIdempotent(txt: string)
    ensures TidyText(TidyText(txt)) == TidyText(txt)
  {
    var t := TidyText(txt);
    TidyTextClean(txt);
    CharOccurs(t, '\U{A0}');
    ReplaceAbsent(t, NBSP, " ");
    ReplaceAbsent(t, BULLET_BREAK, BULLET_DASH);
    StripStripped(t);
  }

  // ---------------------------------------------------------------------------
  // iterate_words_limit
  // ---------------------------------------------------------------------------

  /** How many words a word entry counts for: `len(text.replace('\xa0', ' ').strip().split())`. */
  function Tokens(w: Word): nat {
    |Split(Strip(ReplaceAll(w.text, NBSP, " ")))|
  }

  /**
    An entry counts for as many words as `split()` finds in its text: turning non-breaking spaces
    into spaces and stripping change nothing, since both are whitespace. A text of whitespace only
    counts for none.
   */
  lemma {:induction false} TokensCount(w: Word)
    ensures Tokens(w) == |Split(w.text)|
    ensures Tokens(w) == 0 <==> AllSpaces(w.text)
  {
    var t := w.text;
    var spaced := ReplaceAll(t, NBSP, " ");
    ReplaceCharPointwise(t, '\U{A0}', ' ');
    IsSpaceListed('\U{A0}');
    IsSpaceListed(' ');
    SplitSameWords(spaced, t);
    SplitStrip(spaced);
    SplitEmpty(t);
  }

  /*
    The walk is stated for any per-entry weight; the searcher uses `Tokens`. Keeping the weight
    a parameter keeps the string functions behind `Tokens` out of the proofs about the walk.
   */

  /** The total weight of a sequence of entries. */
  function SumWeights(ws: seq<Word>, weight: Word -> nat): nat
    decreases |ws|
  {
    if ws == [] then 0 else weight(ws[0]) + SumWeights(ws[1..], weight)
  }

  lemma {:induction false} SumWeightsSnoc(ws: seq<Word>, w: Word, weight: Word -> nat)
    ensures SumWeights(ws + [w], weight) == SumWeights(ws, weight) + weight(w)
    decreases |ws|
  {
    if ws != [] {
      assert (ws + [w])[1..] == ws[1..] + [w];
      SumWeightsSnoc(ws[1..], w, weight);
    } else {
      assert ([] + [w])[1..] == [];
    }
  }

  /**
    How many entries the walk visits: it adds each entry's weight to the running count and
    stops after the first entry that brings the count to `limit` or beyond.
   */
  function Visited(ws: seq<Word>, limit: int, weight: Word -> nat): (k: nat)
    ensures k <= |ws|
    decreases |ws|
  {
    if ws == [] then 0
    else if weight(ws[0]) >= limit then 1
    else 1 + Visited(ws[1..], limit - weight(ws[0]), weight)
  }

  /** `iterate_words_limit(ws, limit)`: the count over the visited entries, and the last entry visited. */
  function Walk(ws: seq<Word>, limit: int, weight: Word -> nat): (r: (nat, Option<Word>))
  {
    var k := Visited(ws, limit, weight);
    (SumWeights(ws[..k], weight), if k == 0 then None else Some(ws[k - 1]))
  }

  /** Splitting off the first entry of a prefix. */
  lemma {:induction false} SumWeightsPrefix(ws: seq<Word>, j: nat, weight: Word -> nat)
    requires 1 <= j <= |ws|
    ensures SumWeights(ws[..j], weight) == weight(ws[0]) + SumWeights(ws[1..][..j - 1], weight)
  {
    assert ws[..j][1..] == ws[1..][..j - 1];
  }

  /** The walk visits nothing only on an empty input, and exactly one entry when `limit <= 0`. */
  lemma {:induction false} VisitedEnds(ws: seq<Word>, limit: int, weight: Word -> nat)
    ensures Visited(ws, limit, weight) == 0 <==> ws == []
    ensures ws != [] && limit <= 0 ==> Visited(ws, limit, weight) == 1
  {
  }

  /** The count stays below `limit` on every prefix shorter than the visited one. */
  lemma {:induction false} VisitedBelow(ws: seq<Word>, limit: int, weight: Word -> nat, j: nat)
    requires 1 <= j < Visited(ws, limit, weight)
    ensures SumWeights(ws[..j], weight) < limit
    decreases |ws|
  {
    SumWeightsPrefix(ws, j, weight);
    if j > 1 {
      VisitedBelow(ws[1..], limit - weight(ws[0]), weight, j - 1);
    } else {
      assert ws[1..][..0] == [];
    }
  }

  /** The visited prefix reaches `limit`, unless it is the whole input. */
  lemma {:induction false} VisitedReaches(ws: seq<Word>, limit: int, weight: Word -> nat)
    ensures var k := Visited(ws, limit, weight);
      k == |ws| || SumWeights(ws[..k], weight) >= limit
    decreases |ws|
  {
    if ws != [] {
      var k := Visited(ws, limit, weight);
      SumWeightsPrefix(ws, k, weight);
      if weight(ws[0]) < limit {
        VisitedReaches(ws[1..], limit - weight(ws[0]), weight);
      } else {
        assert ws[1..][..0] == [];
      }
    }
  }

  /**
    The walk visits the shortest prefix whose count reaches `limit`, or everything when no prefix does;
    it visits nothing only on an empty input, and exactly one entry when `limit <= 0`.
   */
  lemma {:induction false} VisitedIsFirstReach(ws: seq<Word>, limit: int, weight: Word -> nat)
    ensures var k := Visited(ws, limit, weight);
      && (k == 0 <==> ws == [])
      && (forall j :: 1 <= j < k ==> SumWeights(ws[..j], weight) < limit)
      && (k == |ws| || SumWeights(ws[..k], weight) >= limit)
      && (ws != [] && limit <= 0 ==> k == 1)
  {
    VisitedEnds(ws, limit, weight);
    VisitedReaches(ws, limit, weight);
    forall j | 1 <= j < Visited(ws, limit, weight) ensures SumWeights(ws[..j], weight) < limit {
      VisitedBelow(ws, limit, weight, j);
    }
  }

  /** The walk's result, described without reference to the walk. */
  lemma {:induction false} WalkResult(ws: seq<Word>, limit: int, weight: Word -> nat)
    ensures var (count, last) := Walk(ws, limit, weight);
      && (ws == [] ==> count == 0 && last == None)
      && (ws != [] ==> last.Some? && last.value == ws[Visited(ws, limit, weight) - 1])
      && (count < limit ==> Visited(ws, limit, weight) == |ws|)
  {
    VisitedIsFirstReach(ws, limit, weight);
  }

  // ---------------------------------------------------------------------------
  // find_bounding_words
  // ---------------------------------------------------------------------------

  /** Which end of a hit rectangle a word has to contain. */
  datatype Edge = Left | Right

  /**
    A word contains the left end of `r` when it has the same top and spans `r.x0`;
    it contains the right end when it has the same bottom and spans `r.x1`.
   */
  predicate Covers(w: Word, r: Rect, e: Edge) {
    match e
    case Left => w.y0 == r.y0 && w.x0 <= r.x0 <= w.x1
    case Right => w.y1 == r.y1 && w.x0 <= r.x1 <= w.x1
  }

  /** The index of the first word that contains the given end of `r`, if any. */
  function FirstCovering(ws: seq<Word>, r: Rect, e: Edge): (i: Option<nat>)
    ensures i.Some? ==> i.value < |ws| && Covers(ws[i.value], r, e)
    ensures i.Some? ==> forall j :: 0 <= j < i.value ==> !Covers(ws[j], r, e)
    ensures i.None? <==> forall j :: 0 <= j < |ws| ==> !Covers(ws[j], r, e)
    decreases |ws|
  {
    if ws == [] then None
    else if Covers(ws[0], r, e) then Some(0)
    else
      match FirstCovering(ws[1..], r, e)
      case None => None
      case Some(k) => Some(k + 1)
  }

  // ---------------------------------------------------------------------------
  // get_words: sorting by position
  // ---------------------------------------------------------------------------

  /** `a` sorts strictly before `b` under the key `[y0, x0]`. */
  predicate Before(a: Word, b: Word) {
    a.y0 < b.y0 || (a.y0 == b.y0 && a.x0 < b.x0)
  }

  predicate SortedByPosition(ws: seq<Word>) {
    forall i, j :: 0 <= i < j < |ws| ==> !Before(ws[j], ws[i])
  }

  /** Inserts `w` after every entry that does not sort after it, scanning from the back. */
  function InsertByPosition(ws: seq<Word>, w: Word): (r: seq<Word>)
    ensures |r| == |ws| + 1
    decreases |ws|
  {
    if ws == [] || !Before(w, ws[|ws| - 1]) then ws + [w]
    else InsertByPosition(ws[..|ws| - 1], w) + [ws[|ws| - 1]]
  }

  /** Inserting adds `w` and loses nothing. */
  lemma {:induction false} InsertPermutes(ws: seq<Word>, w: Word)
    ensures multiset(InsertByPosition(ws, w)) == multiset(ws) + multiset{w}
    decreases |ws|
  {
    if ws != [] && Before(w, ws[|ws| - 1]) {
      var init := ws[..|ws| - 1];
      InsertPermutes(init, w);
      assert ws == init + [ws[|ws| - 1]];
    }
  }

  lemma {:induction false} InsertSorted(ws: seq<Word>, w: Word)
    requires SortedByPosition(ws)
    ensures SortedByPosition(InsertByPosition(ws, w))
    decreases |ws|
  {
    if ws == [] || !Before(w, ws[|ws| - 1]) {
      var r := ws + [w];
      forall i, j | 0 <= i < j < |r| ensures !Before(r[j], r[i]) {
        if j == |ws| && i < |ws| - 1 {
          assert !Before(ws[|ws| - 1], ws[i]);
        }
      }
    } else {
      var init := ws[..|ws| - 1];
      var last := ws[|ws| - 1];
      assert SortedByPosition(init) by {
        forall i, j | 0 <= i < j < |init| ensures !Before(init[j], init[i]) {
          assert init[i] == ws[i] && init[j] == ws[j];
        }
      }
      InsertSorted(init, w);
      InsertPermutes(init, w);
      var m := InsertByPosition(init, w);
      var r := m + [last];
      forall i, j | 0 <= i < j < |r| ensures !Before(r[j], r[i]) {
        if j == |m| {
          assert r[i] in multiset(m);
          if r[i] != w {
            assert r[i] in multiset(init);
            var k :| 0 <= k < |init| && init[k] == r[i];
            assert !Before(last, ws[k]);
          }
        } else {
          assert r[i] == m[i] && r[j] == m[j];
        }
      }
    }
  }

  /** `sorted(ws, key=lambda w: [w.y0, w.x0])`, as an insertion sort that keeps equal keys in input order. */
  function SortByPosition(ws: seq<Word>): (r: seq<Word>)
    ensures SortedByPosition(r)
    ensures multiset(r) == multiset(ws)
    decreases |ws|
  {
    if ws == [] then []
    else
      var init := SortByPosition(ws[..|ws| - 1]);
      assert ws == ws[..|ws| - 1] + [ws[|ws| - 1]];
      InsertSorted(init, ws[|ws| - 1]);
      InsertPermutes(init, ws[|ws| - 1]);
      InsertByPosition(init, ws[|ws| - 1])
  }

  /** The entries of `ws` whose key is `(y, x)`, in order. */
  function WithKey(ws: seq<Word>, y: real, x: real): seq<Word>
    decreases |ws|
  {
    if ws == [] then []
    else
      var w := ws[|ws| - 1];
      WithKey(ws[..|ws| - 1], y, x) + (if w.y0 == y && w.x0 == x then [w] else [])
  }

  lemma {:induction false} InsertStable(ws: seq<Word>, w: Word, y: real, x: real)
    ensures WithKey(InsertByPosition(ws, w), y, x) == WithKey(ws, y, x) + (if w.y0 == y && w.x0 == x then [w] else [])
    decreases |ws|
  {
    if ws == [] || !Before(w, ws[|ws| - 1]) {
      assert InsertByPosition(ws, w) == ws + [w];
      WithKeySnoc(ws, w, y, x);
    } else {
      var init := ws[..|ws| - 1];
      var last := ws[|ws| - 1];
      InsertStable(init, w, y, x);
      var m := InsertByPosition(init, w);
      assert InsertByPosition(ws, w) == m + [last];
      WithKeySnoc(m, last, y, x);
      WithKeySnoc(init, last, y, x);
      assert init + [last] == ws;
    }
  }

  /** The entries with key `(y, x)` of a list with one more entry at its end. */
  lemma {:induction false} WithKeySnoc(ws: seq<Word>, v: Word, y: real, x: real)
    ensures WithKey(ws + [v], y, x) == WithKey(ws, y, x) + (if v.y0 == y && v.x0 == x then [v] else [])
  {
    assert (ws + [v])[..|ws|] == ws;
  }

  /** The sort is stable: entries with equal keys keep their input order. */
  lemma {:induction false} SortStable(ws: seq<Word>, y: real, x: real)
    ensures WithKey(SortByPosition(ws), y, x) == WithKey(ws, y, x)
    decreases |ws|
  {
    if ws != [] {
      SortStable(ws[..|ws| - 1], y, x);
      InsertStable(SortByPosition(ws[..|ws| - 1]), ws[|ws| - 1], y, x);
    }
  }

  // ---------------------------------------------------------------------------
  // get_words: the page-number heuristic and the word index
  // ---------------------------------------------------------------------------

  /** The last entry starts further below the one before it than twice that one's height. */
  predicate LastIsDetached(pw: seq<Word>)
    requires |pw| >= 2
  {
    var last, prev := pw[|pw| - 1], pw[|pw| - 2];
    last.y0 - prev.y1 > 2.0 * (prev.y1 - prev.y0)
  }

  /**
    The page-number heuristic of `get_words` on one sorted page: `None` where the `try`
    block raises (an IndexError below two entries, a ValueError from `int`), and otherwise
    the page with its last entry dropped when that entry is detached and a nonzero integer.
   */
  function StripPageNumber(pw: seq<Word>): (r: Option<seq<Word>>)
    ensures r.Some? ==> |pw| >= 2 && (r.value == pw || r.value == pw[..|pw| - 1])
  {
    if |pw| < 2 then None
    else if LastIsDetached(pw) then
      match ParseInt(Strip(pw[|pw| - 1].text))
      case None => None
      case Some(v) => Some(if v != 0 then pw[..|pw| - 1] else pw)
    else Some(pw)
  }

  /** The value `get_words` stores for page `p`, if it stores one. */
  function PageWords(pg: Page): Option<seq<Word>> {
    StripPageNumber(SortByPosition(pg.words))
  }

  /** Page number to `entry` of that page, for every page on which `entry` gives a value. */
  function PageIndex(pages: seq<Page>, entry: Page -> Option<seq<Word>>): (m: map<nat, seq<Word>>)
    ensures forall p: nat :: p in m <==> p < |pages| && entry(pages[p]).Some?
    ensures forall p: nat :: p in m ==> m[p] == entry(pages[p]).value
  {
    map p: nat | p < |pages| && entry(pages[p]).Some? :: entry(pages[p]).value
  }

  /** The index of one more page: that page's entry is added, unless there is none. */
  lemma {:induction false} PageIndexSnoc(pages: seq<Page>, entry: Page -> Option<seq<Word>>, p: nat)
    requires p < |pages|
    ensures PageIndex(pages[..p + 1], entry) ==
      if entry(pages[p]).Some? then PageIndex(pages[..p], entry)[p := entry(pages[p]).value] else PageIndex(pages[..p], entry)
  {
    forall q: nat | q < p ensures pages[..p + 1][q] == pages[..p][q] == pages[q] {}
    assert pages[..p + 1][p] == pages[p];
  }

  /** `get_words()`: page number to its sorted entries, for every page on which the heuristic does not raise. */
  function WordIndex(pages: seq<Page>): (m: map<nat, seq<Word>>)
    ensures forall p: nat :: p in m <==> p < |pages| && PageWords(pages[p]).Some?
  {
    PageIndex(pages, PageWords)
  }

  /**
    What the word index holds: a page has an entry unless it has fewer than two words or its
    detached last word is not an integer; the entry is the sorted page, minus its last word
    exactly when that word is detached and a nonzero integer.
   */
  lemma {:induction false} WordIndexSpec(pages: seq<Page>, p: nat)
    requires p < |pages|
    ensures var pw := SortByPosition(pages[p].words);
      && multiset(pw) == multiset(pages[p].words)
      && SortedByPosition(pw)
      && (p !in WordIndex(pages) <==>
            |pw| < 2 || (LastIsDetached(pw) && ParseInt(Strip(pw[|pw| - 1].text)).None?))
      && (p in WordIndex(pages) ==>
            WordIndex(pages)[p] ==
              if LastIsDetached(pw) && ParseInt(Strip(pw[|pw| - 1].text)) != Some(0) then pw[..|pw| - 1] else pw)
  {
  }

  /** Every stored entry list is sorted and nonempty. */
  lemma {:induction false} WordIndexSorted(pages: seq<Page>, p: nat)
    requires p in WordIndex(pages)
    ensures SortedByPosition(WordIndex(pages)[p]) && WordIndex(pages)[p] != []
  {
    var pw := SortByPosition(pages[p].words);
    var ws := WordIndex(pages)[p];
    if ws != pw {
      forall i, j | 0 <= i < j < |ws| ensures !Before(ws[j], ws[i]) {
        assert ws[i] == pw[i] && ws[j] == pw[j];
      }
    }
  }

  /** A detached page number "0" is kept, because `int("0")` is falsy. */
  lemma {:induction false} ZeroPageNumberKept(pw: seq<Word>)
    requires |pw| >= 2 && LastIsDetached(pw) && Strip(pw[|pw| - 1].text) == "0"
    ensures StripPageNumber(pw) == Some(pw)
  {
    var t := Strip(pw[|pw| - 1].text);
    assert Strip(t) == "0" by { StripStripped("0"); }
    ParseIntZero(t);
  }

  /** Every list the word index stores is nonempty. */
  predicate NonEmptyLists(words: map<nat, seq<Word>>) {
    forall p :: p in words ==> words[p] != []
  }

  lemma {:induction false} WordIndexNonEmpty(pages: seq<Page>)
    ensures NonEmptyLists(WordIndex(pages))
  {
    forall p | p in WordIndex(pages) ensures WordIndex(pages)[p] != [] {
      WordIndexSorted(pages, p);
    }
  }

  // ---------------------------------------------------------------------------
  // search_for_keywords: hits and instances
  // ---------------------------------------------------------------------------

  /** One hit: rectangle `rect` found for `keyword` on page `page`. */
  datatype Hit = Hit(page: nat, keyword: string, rect: Rect)

  /** The hits of one keyword on one page, in the order `search_for` returns them. */
  function KeywordHits(pdf: Pdf, p: nat, keyword: string): (hs: seq<Hit>)
    ensures |hs| == |pdf.searchFor(p, keyword)|
    ensures forall i :: 0 <= i < |hs| ==> hs[i] == Hit(p, keyword, pdf.searchFor(p, keyword)[i])
  {
    var rs := pdf.searchFor(p, keyword);
    seq(|rs|, i requires 0 <= i < |rs| => Hit(p, keyword, rs[i]))
  }

  /** The rectangles of a keyword's hits are what `search_for` returned, and each hit names the page and the keyword. */
  lemma {:induction false} KeywordHitsRects(pdf: Pdf, p: nat, keyword: string)
    ensures RectsOf(KeywordHits(pdf, p, keyword)) == pdf.searchFor(p, keyword)
    ensures forall h :: h in KeywordHits(pdf, p, keyword) ==> h.page == p && h.keyword == keyword
  {
  }

  /** The hits on page `p`, keyword by keyword in list order. */
  function PageHits(pdf: Pdf, p: nat, keywords: seq<string>): seq<Hit>
    decreases |keywords|
  {
    if keywords == [] then []
    else PageHits(pdf, p, keywords[..|keywords| - 1]) + KeywordHits(pdf, p, keywords[|keywords| - 1])
  }

  /** The hits on pages `0 .. n - 1`, page by page. */
  function Hits(pdf: Pdf, keywords: seq<string>, n: nat): seq<Hit>
    decreases n
  {
    if n == 0 then [] else Hits(pdf, keywords, n - 1) + PageHits(pdf, n - 1, keywords)
  }

  /** `doc_instances[p]`: the rectangles of every keyword on page `p`, concatenated in keyword order. */
  function PageRects(pdf: Pdf, p: nat, keywords: seq<string>): seq<Rect>
    decreases |keywords|
  {
    if keywords == [] then []
    else PageRects(pdf, p, keywords[..|keywords| - 1]) + pdf.searchFor(p, keywords[|keywords| - 1])
  }

  /** `doc_instances` once the first `n` pages are done: a key for each of them. */
  function Instances(pdf: Pdf, keywords: seq<string>, n: nat): (m: PageInstances)
    ensures forall p: nat :: p in m <==> p < n
  {
    map p: nat | p < n :: PageRects(pdf, p, keywords)
  }

  /** The hits on page `p`, in order. */
  function OnPage(hs: seq<Hit>, p: nat): (r: seq<Hit>)
    ensures forall i :: 0 <= i < |r| ==> r[i].page == p
    decreases |hs|
  {
    if hs == [] then []
    else OnPage(hs[..|hs| - 1], p) + if hs[|hs| - 1].page == p then [hs[|hs| - 1]] else []
  }

  function RectsOf(hs: seq<Hit>): (r: seq<Rect>)
    ensures |r| == |hs| && forall i :: 0 <= i < |hs| ==> r[i] == hs[i].rect
  {
    seq(|hs|, i requires 0 <= i < |hs| => hs[i].rect)
  }

  lemma {:induction false} OnPageAppend(a: seq<Hit>, b: seq<Hit>, p: nat)
    ensures OnPage(a + b, p) == OnPage(a, p) + OnPage(b, p)
    decreases |b|
  {
    if b == [] {
      assert a + b == a;
    } else {
      var b' := b[..|b| - 1];
      assert (a + b)[..|a + b| - 1] == a + b';
      OnPageAppend(a, b', p);
    }
  }

  /** Filtering hits that all lie on one page keeps them all, or none. */
  lemma {:induction false} OnPageAll(hs: seq<Hit>, q: nat, p: nat)
    requires forall i :: 0 <= i < |hs| ==> hs[i].page == q
    ensures OnPage(hs, p) == if p == q then hs else []
    decreases |hs|
  {
    if hs != [] {
      OnPageAll(hs[..|hs| - 1], q, p);
    }
  }

  lemma {:induction false} PageHitsOnPage(pdf: Pdf, p: nat, keywords: seq<string>)
    ensures forall i :: 0 <= i < |PageHits(pdf, p, keywords)| ==> PageHits(pdf, p, keywords)[i].page == p
    ensures RectsOf(PageHits(pdf, p, keywords)) == PageRects(pdf, p, keywords)
    decreases |keywords|
  {
    if keywords != [] {
      var init := keywords[..|keywords| - 1];
      PageHitsOnPage(pdf, p, init);
      var a, b := PageHits(pdf, p, init), KeywordHits(pdf, p, keywords[|keywords| - 1]);
      assert PageHits(pdf, p, keywords) == a + b;
      assert RectsOf(a + b) == RectsOf(a) + RectsOf(b);
    }
  }

  /** A hit on one of the first `n` pages, for a listed keyword, at a rectangle `search_for` returned. */
  predicate HitFrom(pdf: Pdf, keywords: seq<string>, n: nat, h: Hit) {
    h.page < n && h.keyword in keywords && h.rect in pdf.searchFor(h.page, h.keyword)
  }

  /** Every hit lies on one of the first `n` pages and was returned by `search_for` for a listed keyword. */
  lemma {:induction false} HitsFrom(pdf: Pdf, keywords: seq<string>, n: nat)
    ensures forall i :: 0 <= i < |Hits(pdf, keywords, n)| ==> HitFrom(pdf, keywords, n, Hits(pdf, keywords, n)[i])
    decreases n
  {
    if n > 0 {
      HitsFrom(pdf, keywords, n - 1);
      PageHitsOnPage(pdf, n - 1, keywords);
      PageHitsFrom(pdf, n - 1, keywords);
      var a, b := Hits(pdf, keywords, n - 1), PageHits(pdf, n - 1, keywords);
      var hs: seq<Hit> := a + b;
      assert Hits(pdf, keywords, n) == hs;
      forall i | 0 <= i < |hs| ensures HitFrom(pdf, keywords, n, hs[i]) {
        if i < |a| { assert hs[i] == a[i]; assert HitFrom(pdf, keywords, n - 1, a[i]); } else { assert hs[i] == b[i - |a|]; }
      }
    }
  }

  /** Every hit lies on one of the first `n` pages. */
  lemma {:induction false} HitsBefore(pdf: Pdf, keywords: seq<string>, n: nat)
    ensures forall i :: 0 <= i < |Hits(pdf, keywords, n)| ==> Hits(pdf, keywords, n)[i].page < n
    decreases n
  {
    if n > 0 {
      HitsBefore(pdf, keywords, n - 1);
      PageHitsOnPage(pdf, n - 1, keywords);
      PagesAppend(Hits(pdf, keywords, n - 1), PageHits(pdf, n - 1, keywords), n - 1);
    }
  }

  /** The hits come page by page. */
  lemma {:induction false} HitsByPage(pdf: Pdf, keywords: seq<string>, n: nat)
    ensures forall i, j :: 0 <= i < j < |Hits(pdf, keywords, n)| ==> Hits(pdf, keywords, n)[i].page <= Hits(pdf, keywords, n)[j].page
    decreases n
  {
    if n > 0 {
      HitsByPage(pdf, keywords, n - 1);
      HitsBefore(pdf, keywords, n - 1);
      PageHitsOnPage(pdf, n - 1, keywords);
      PagesAppend(Hits(pdf, keywords, n - 1), PageHits(pdf, n - 1, keywords), n - 1);
    }
  }

  /**
    Hits `a` in page order, all before page `q`, followed by hits `b` on page `q`: the whole is in
    page order and lies before page `q + 1`.
   */
  lemma {:induction false} PagesAppend(a: seq<Hit>, b: seq<Hit>, q: nat)
    requires forall i :: 0 <= i < |a| ==> a[i].page < q
    requires forall i :: 0 <= i < |b| ==> b[i].page == q
    ensures forall i :: 0 <= i < |a + b| ==> (a + b)[i].page < q + 1
    ensures (forall i, j :: 0 <= i < j < |a| ==> a[i].page <= a[j].page) ==>
      forall i, j :: 0 <= i < j < |a + b| ==> (a + b)[i].page <= (a + b)[j].page
  {
    var hs := a + b;
    forall i | 0 <= i < |hs| ensures hs[i].page < q + 1 {
      if i < |a| { assert hs[i] == a[i]; } else { assert hs[i] == b[i - |a|]; }
    }
    if forall i, j :: 0 <= i < j < |a| ==> a[i].page <= a[j].page {
      forall i, j | 0 <= i < j < |hs| ensures hs[i].page <= hs[j].page {
        if j < |a| {
          assert hs[i] == a[i] && hs[j] == a[j];
        } else if i < |a| {
          assert hs[i] == a[i] && hs[j] == b[j - |a|];
        } else {
          assert hs[i] == b[i - |a|] && hs[j] == b[j - |a|];
        }
      }
    }
  }

  /** The hits on page `p` are exactly that page's hits, keyword by keyword. */
  lemma {:induction false} HitsOnPage(pdf: Pdf, keywords: seq<string>, n: nat, p: nat)
    requires p < n
    ensures OnPage(Hits(pdf, keywords, n), p) == PageHits(pdf, p, keywords)
    decreases n
  {
    var a, b := Hits(pdf, keywords, n - 1), PageHits(pdf, n - 1, keywords);
    PageHitsOnPage(pdf, n - 1, keywords);
    HitsBefore(pdf, keywords, n - 1);
    if p < n - 1 {
      HitsOnPage(pdf, keywords, n - 1, p);
    }
    OnPageStep(Hits(pdf, keywords, n), a, b, n - 1, p, PageHits(pdf, p, keywords));
  }

  /** `OnPageSplit` for a sequence `all` made of `a` and `b`, with the filtered result named `target`. */
  lemma {:induction false} OnPageStep(all: seq<Hit>, a: seq<Hit>, b: seq<Hit>, q: nat, p: nat, target: seq<Hit>)
    requires all == a + b
    requires forall i :: 0 <= i < |a| ==> a[i].page < q
    requires forall i :: 0 <= i < |b| ==> b[i].page == q
    requires p <= q
    requires p == q ==> target == b
    requires p < q ==> OnPage(a, p) == target
    ensures OnPage(all, p) == target
  {
    OnPageSplit(a, b, q, p);
  }

  /** Hits `a` before page `q` followed by hits `b` on page `q`: filtering for `p` keeps `b` when `p` is `q`, and what `a` has otherwise. */
  lemma {:induction false} OnPageSplit(a: seq<Hit>, b: seq<Hit>, q: nat, p: nat)
    requires forall i :: 0 <= i < |a| ==> a[i].page < q
    requires forall i :: 0 <= i < |b| ==> b[i].page == q
    requires p <= q
    ensures OnPage(a + b, p) == if p == q then b else OnPage(a, p)
  {
    OnPageAppend(a, b, p);
    OnPageAll(b, q, p);
    if p == q {
      OnPageNone(a, p);
      assert [] + b == b;
    } else {
      assert OnPage(a, p) + [] == OnPage(a, p);
    }
  }

  /** No hit of a sequence on page `p` leaves nothing after filtering for `p`. */
  lemma {:induction false} OnPageNone(hs: seq<Hit>, p: nat)
    requires forall i :: 0 <= i < |hs| ==> hs[i].page < p
    ensures OnPage(hs, p) == []
    decreases |hs|
  {
    if hs != [] {
      OnPageNone(hs[..|hs| - 1], p);
    }
  }

  lemma {:induction false} PageHitsFrom(pdf: Pdf, p: nat, keywords: seq<string>)
    ensures forall i :: 0 <= i < |PageHits(pdf, p, keywords)| ==>
      PageHits(pdf, p, keywords)[i].keyword in keywords
      && PageHits(pdf, p, keywords)[i].rect in pdf.searchFor(p, PageHits(pdf, p, keywords)[i].keyword)
    decreases |keywords|
  {
    if keywords != [] {
      var init := keywords[..|keywords| - 1];
      PageHitsFrom(pdf, p, init);
      var a, b := PageHits(pdf, p, init), KeywordHits(pdf, p, keywords[|keywords| - 1]);
      var hs: seq<Hit> := a + b;
      forall i | 0 <= i < |hs| ensures hs[i].keyword in keywords {
        if i < |a| { assert a[i].keyword in init; }
      }
    }
  }

  /** The instance map agrees with the hits: page `p`'s value lists the rectangles of the hits on page `p`, in order. */
  lemma {:induction false} InstancesMatchHits(pdf: Pdf, keywords: seq<string>, n: nat, p: nat)
    requires p < n
    ensures Instances(pdf, keywords, n)[p] == RectsOf(OnPage(Hits(pdf, keywords, n), p))
  {
    HitsOnPage(pdf, keywords, n, p);
    PageHitsOnPage(pdf, p, keywords);
  }

  // ---------------------------------------------------------------------------
  // search_for_keywords: the text around one hit
  // ---------------------------------------------------------------------------

  /** One `get_textbox` query: a rectangle on a page. */
  datatype Box = Box(page: nat, rect: Rect)

  /**
    The entries before the hit's first word, nearest first. With no first word the slice
    `[:None]` is the whole page.
   */
  function LeftContext(ws: seq<Word>, istart: Option<nat>): seq<Word>
    requires istart.Some? ==> istart.value <= |ws|
  {
    Reverse(if istart.None? then ws else ws[..istart.value])
  }

  /*
    The functions below take the walk's weight as a parameter `weight`; the search instantiates
    it with `Tokens`.
   */

  /** Where the left context ends: at the first word, or at the end of the page when there is none. */
  function From(ws: seq<Word>, rect: Rect): (i: nat)
    ensures i <= |ws|
  {
    match FirstCovering(ws, rect, Left)
    case Some(i) => i
    case None => |ws|
  }

  /** The index of the entry whose top is the top of the main box: `kl` entries before `From`, `kl` being how many the left walk visits. */
  function TopIndex(ws: seq<Word>, rect: Rect, pad: int, weight: Word -> nat): int {
    From(ws, rect) - Visited(Reverse(ws[..From(ws, rect)]), pad, weight)
  }

  /** The index of the entry whose bottom is the bottom of the main box: `kr` entries after the last word. */
  function BottomIndex(ws: seq<Word>, iend: nat, pad: int, weight: Word -> nat): int
    requires iend < |ws|
  {
    iend + Visited(ws[iend + 1..], pad, weight)
  }

  /** `word_count_left` */
  function LeftCount(ws: seq<Word>, rect: Rect, pad: int, weight: Word -> nat): nat {
    Walk(LeftContext(ws, FirstCovering(ws, rect, Left)), pad, weight).0
  }

  /** `word_count_right` */
  function RightCount(ws: seq<Word>, iend: nat, pad: int, weight: Word -> nat): nat
    requires iend < |ws|
  {
    Walk(ws[iend + 1..], pad, weight).0
  }

  /** The entry at `TopIndex` is the one the source reads the top of the main box from. */
  lemma {:induction false} TopEntry(ws: seq<Word>, rect: Rect, pad: int, weight: Word -> nat)
    requires ws != []
    ensures 0 <= TopIndex(ws, rect, pad, weight) < |ws|
    ensures var istart := FirstCovering(ws, rect, Left);
      var first := Walk(LeftContext(ws, istart), pad, weight).1;
      && (first.Some? || istart.Some?)
      && (if first.Some? then first.value else ws[istart.value]) == ws[TopIndex(ws, rect, pad, weight)]
  {
    var istart := FirstCovering(ws, rect, Left);
    var from := From(ws, rect);
    assert LeftContext(ws, istart) == Reverse(ws[..from]);
    WalkReversed(ws[..from], pad, weight);
  }

  /** Walking a reversed list ends `k` entries before its end, `k` being how many entries it visits. */
  lemma {:induction false} WalkReversed(xs: seq<Word>, pad: int, weight: Word -> nat)
    ensures var k := Visited(Reverse(xs), pad, weight);
      && k <= |xs|
      && (k == 0 <==> xs == [])
      && (k > 0 ==> Walk(Reverse(xs), pad, weight).1 == Some(xs[|xs| - k]))
  {
    var k := Visited(Reverse(xs), pad, weight);
    VisitedEnds(Reverse(xs), pad, weight);
    if k > 0 {
      assert Reverse(xs)[k - 1] == xs[|xs| - 1 - (k - 1)];
    }
  }

  /** The entry at `BottomIndex` is the one the source reads the bottom of the main box from. */
  lemma {:induction false} BottomEntry(ws: seq<Word>, iend: nat, pad: int, weight: Word -> nat)
    requires iend < |ws|
    ensures BottomIndex(ws, iend, pad, weight) < |ws|
    ensures var last := Walk(ws[iend + 1..], pad, weight).1;
      (if last.Some? then last.value else ws[iend]) == ws[BottomIndex(ws, iend, pad, weight)]
  {
    var k := Visited(ws[iend + 1..], pad, weight);
    if k > 0 {
      assert ws[iend + 1..][k - 1] == ws[iend + k];
    }
  }

  /**
    The main box of a hit on page `p` with entries `ws`: the page width, from the top of the first
    word reached walking left to the bottom of the last word reached walking right. It raises
    TypeError when no word contains the right end of the hit (`word_end + 1` on None); the
    TypeError of `words[None]` for the top cannot occur, because the page then has no word at all.
   */
  function MainBox(pdf: Pdf, p: nat, ws: seq<Word>, rect: Rect, pad: int, weight: Word -> nat): (r: Result<Box>)
    requires p < |pdf.pages|
    ensures r.Ok? <==> FirstCovering(ws, rect, Right).Some?
    ensures r.Ok? ==> r.value.page == p
  {
    var istart := FirstCovering(ws, rect, Left);
    var iend := FirstCovering(ws, rect, Right);
    var first := Walk(LeftContext(ws, istart), pad, weight).1;
    if iend.None? then Raise(TypeError)
    else
      var last := Walk(ws[iend.value + 1..], pad, weight).1;
      if first.None? && istart.None? then Raise(TypeError)
      else
        var top := if first.Some? then first.value.y0 else ws[istart.value].y0;
        var bottom := if last.Some? then last.value.y1 else ws[iend.value].y1;
        Ok(Box(p, Rect(0.0, top, pdf.pages[p].width, bottom)))
  }

  /** `MainBox` from the bounding words and the last entries the two walks reach. */
  lemma {:induction false} MainBoxParts(pdf: Pdf, p: nat, ws: seq<Word>, rect: Rect, pad: int, weight: Word -> nat,
                                        istart: Option<nat>, iend: Option<nat>, first: Option<Word>, last: Option<Word>)
    requires p < |pdf.pages|
    requires istart == FirstCovering(ws, rect, Left) && iend == FirstCovering(ws, rect, Right)
    requires first == Walk(LeftContext(ws, istart), pad, weight).1
    requires iend.Some? ==> last == Walk(ws[iend.value + 1..], pad, weight).1
    ensures iend.None? || (first.None? && istart.None?) ==> MainBox(pdf, p, ws, rect, pad, weight) == Raise(TypeError)
    ensures iend.Some? && !(first.None? && istart.None?) ==>
      var top := if first.Some? then first.value.y0 else ws[istart.value].y0;
      var bottom := if last.Some? then last.value.y1 else ws[iend.value].y1;
      MainBox(pdf, p, ws, rect, pad, weight) == Ok(Box(p, Rect(0.0, top, pdf.pages[p].width, bottom)))
  {
  }

  /**
    The main box spans the page width, from the top of the entry `kl` places before the first word
    (`kl` being how many entries the left walk visits) to the bottom of the entry `kr` places after
    the last word (`kr` being how many the right walk visits).
   */
  lemma {:induction false} MainBoxSpan(pdf: Pdf, p: nat, ws: seq<Word>, rect: Rect, pad: int, weight: Word -> nat)
    requires p < |pdf.pages|
    requires MainBox(pdf, p, ws, rect, pad, weight).Ok?
    ensures var iend := FirstCovering(ws, rect, Right).value;
      && 0 <= TopIndex(ws, rect, pad, weight) < |ws| && BottomIndex(ws, iend, pad, weight) < |ws|
      && MainBox(pdf, p, ws, rect, pad, weight).value
         == Box(p, Rect(0.0, ws[TopIndex(ws, rect, pad, weight)].y0, pdf.pages[p].width, ws[BottomIndex(ws, iend, pad, weight)].y1))
  {
    TopEntry(ws, rect, pad, weight);
    BottomEntry(ws, FirstCovering(ws, rect, Right).value, pad, weight);
  }

  /**
    The box on page `p - 1` when `wanted` (`word_count_left < word_pad` and `p > 0`): the page width,
    from the top of the first entry reached walking back from the end of that page with the
    remaining budget, to the bottom of the page. KeyError when page `p - 1` has no entry in the
    word index; TypeError when the walk reaches nothing.
   */
  function PrevBlock(pdf: Pdf, words: map<nat, seq<Word>>, p: nat, budget: int, wanted: bool, weight: Word -> nat): (r: Result<seq<Box>>)
    requires p < |pdf.pages| && (wanted ==> p > 0)
    ensures r.Ok? && !wanted ==> r.value == []
    ensures r.Ok? && wanted ==> p - 1 in words && |r.value| == 1 && r.value[0].page == p - 1
    ensures NonEmptyLists(words) ==> (r.Ok? <==> !wanted || p - 1 in words)
  {
    if !wanted then Ok([])
    else if p - 1 !in words then Raise(KeyError)
    else
      var ws := words[p - 1];
      var first := Walk(Reverse(ws), budget, weight).1;
      if first.None? then Raise(TypeError)
      else Ok([Box(p - 1, Rect(0.0, first.value.y0, pdf.pages[p - 1].width, pdf.pages[p - 1].height))])
  }

  /**
    The box on page `p + 1` when `wanted` (`word_count_right < word_pad` and a next page exists): from
    the top of that page to the bottom of the last entry reached walking forward with the remaining
    budget. Its width is read from `doc[p - 1]`, the page before the hit's page, which is the last
    page when `p` is 0. KeyError and TypeError as for the previous page.
   */
  function NextBlock(pdf: Pdf, words: map<nat, seq<Word>>, p: nat, budget: int, wanted: bool, weight: Word -> nat): (r: Result<seq<Box>>)
    requires p < |pdf.pages| && (wanted ==> p + 1 < |pdf.pages|)
    ensures r.Ok? && !wanted ==> r.value == []
    ensures r.Ok? && wanted ==> p + 1 in words && |r.value| == 1 && r.value[0].page == p + 1
    ensures NonEmptyLists(words) ==> (r.Ok? <==> !wanted || p + 1 in words)
  {
    if !wanted then Ok([])
    else if p + 1 !in words then Raise(KeyError)
    else
      var ws := words[p + 1];
      var last := Walk(ws, budget, weight).1;
      if last.None? then Raise(TypeError)
      else Ok([Box(p + 1, Rect(0.0, 0.0, PageAt(pdf, p - 1).width, last.value.y1))])
  }

  /** The previous-page box starts at the top of the entry `k` places from the end of that page, `k` being how many the walk visits. */
  lemma {:induction false} PrevBlockSpan(pdf: Pdf, words: map<nat, seq<Word>>, p: nat, budget: int, weight: Word -> nat)
    requires 0 < p < |pdf.pages|
    requires PrevBlock(pdf, words, p, budget, true, weight).Ok?
    ensures var ws := words[p - 1];
      var k := Visited(Reverse(ws), budget, weight);
      && 0 < k <= |ws|
      && PrevBlock(pdf, words, p, budget, true, weight).value
         == [Box(p - 1, Rect(0.0, ws[|ws| - k].y0, pdf.pages[p - 1].width, pdf.pages[p - 1].height))]
  {
    WalkReversed(words[p - 1], budget, weight);
  }

  /** The next-page box ends at the bottom of the `k`-th entry of that page, `k` being how many the walk visits. */
  lemma {:induction false} NextBlockSpan(pdf: Pdf, words: map<nat, seq<Word>>, p: nat, budget: int, weight: Word -> nat)
    requires p + 1 < |pdf.pages|
    requires NextBlock(pdf, words, p, budget, true, weight).Ok?
    ensures var ws := words[p + 1];
      var k := Visited(ws, budget, weight);
      && 0 < k <= |ws|
      && NextBlock(pdf, words, p, budget, true, weight).value
         == [Box(p + 1, Rect(0.0, 0.0, PageAt(pdf, p - 1).width, ws[k - 1].y1))]
  {
    VisitedEnds(words[p + 1], budget, weight);
  }

  /**
    The `get_textbox` queries behind the row of a hit at `rect` on page `p`, in text order.
    KeyError when page `p` has no entry in the word index, then the errors of the blocks in the
    order the source meets them.
   */
  function HitBoxes(pdf: Pdf, words: map<nat, seq<Word>>, p: nat, rect: Rect, pad: int, weight: Word -> nat): Result<seq<Box>>
    requires p < |pdf.pages|
  {
    if p !in words then Raise(KeyError)
    else
      var ws := words[p];
      var main :- MainBox(pdf, p, ws, rect, pad, weight);
      var lc, rc := LeftCount(ws, rect, pad, weight), RightCount(ws, FirstCovering(ws, rect, Right).value, pad, weight);
      AroundMain(pdf, words, p, lc, rc, pad, weight, main)
  }

  /**
    The boxes of a hit on page `p` once its main box `main` and the counts `lc` and `rc` of its
    left and right walks are known: the neighbour blocks around it, or the first of their errors.
   */
  function AroundMain(pdf: Pdf, words: map<nat, seq<Word>>, p: nat, lc: nat, rc: nat, pad: int, weight: Word -> nat, main: Box): Result<seq<Box>>
    requires p < |pdf.pages|
  {
    var before :- PrevBlock(pdf, words, p, pad - lc, lc < pad && p > 0, weight);
    var after :- NextBlock(pdf, words, p, pad - rc, rc < pad && p + 1 < |pdf.pages|, weight);
    Ok(before + [main] + after)
  }

  /**
    The shape of the text around a hit: the main box on the hit's page, at most one box on the page
    before it, first, present exactly when the left walk ended below the budget and `p > 0`, and at
    most one box on the page after it, last, present exactly when the right walk ended below the
    budget and a next page exists.
   */
  lemma {:induction false} HitBoxesShape(pdf: Pdf, words: map<nat, seq<Word>>, p: nat, rect: Rect, pad: int, weight: Word -> nat)
    requires p < |pdf.pages|
    requires HitBoxes(pdf, words, p, rect, pad, weight).Ok?
    ensures p in words && FirstCovering(words[p], rect, Right).Some?
    ensures var ws := words[p];
      var iend := FirstCovering(ws, rect, Right).value;
      var boxes := HitBoxes(pdf, words, p, rect, pad, weight).value;
      var hasPrev := LeftCount(ws, rect, pad, weight) < pad && p > 0;
      var hasNext := RightCount(ws, iend, pad, weight) < pad && p + 1 < |pdf.pages|;
      var m := if hasPrev then 1 else 0;
      && |boxes| == m + 1 + (if hasNext then 1 else 0)
      && boxes[m] == MainBox(pdf, p, ws, rect, pad, weight).value
      && (hasPrev ==> boxes[0].page == p - 1)
      && (hasNext ==> boxes[m + 1].page == p + 1)
  {
    var ws := words[p];
    var main := MainBox(pdf, p, ws, rect, pad, weight).value;
    var lc, rc := LeftCount(ws, rect, pad, weight), RightCount(ws, FirstCovering(ws, rect, Right).value, pad, weight);
    assert HitBoxes(pdf, words, p, rect, pad, weight) == AroundMain(pdf, words, p, lc, rc, pad, weight, main);
    AroundMainShape(pdf, words, p, lc, rc, pad, weight, main);
  }

  /** The neighbour blocks around a main box `main`: at most one before it and at most one after it. */
  lemma {:induction false} AroundMainShape(pdf: Pdf, words: map<nat, seq<Word>>, p: nat, lc: nat, rc: nat, pad: int, weight: Word -> nat, main: Box)
    requires p < |pdf.pages|
    requires AroundMain(pdf, words, p, lc, rc, pad, weight, main).Ok?
    ensures var boxes := AroundMain(pdf, words, p, lc, rc, pad, weight, main).value;
      var hasPrev := lc < pad && p > 0;
      var hasNext := rc < pad && p + 1 < |pdf.pages|;
      var m := if hasPrev then 1 else 0;
      && |boxes| == m + 1 + (if hasNext then 1 else 0)
      && boxes[m] == main
      && (hasPrev ==> boxes[0].page == p - 1)
      && (hasNext ==> boxes[m + 1].page == p + 1)
  {
  }

  /**
    On a word index whose lists are nonempty, as the one `get_words` builds, a hit's text raises
    only for a missing last word or a missing page entry: the hit's page, and each neighbour a
    walk falls short into, must be in the index.
   */
  lemma {:induction false} HitBoxesOk(pdf: Pdf, words: map<nat, seq<Word>>, p: nat, rect: Rect, pad: int, weight: Word -> nat)
    requires p < |pdf.pages|
    requires NonEmptyLists(words)
    ensures HitBoxes(pdf, words, p, rect, pad, weight).Ok? <==>
      && p in words
      && FirstCovering(words[p], rect, Right).Some?
      && (LeftCount(words[p], rect, pad, weight) < pad && p > 0 ==> p - 1 in words)
      && (RightCount(words[p], FirstCovering(words[p], rect, Right).value, pad, weight) < pad && p + 1 < |pdf.pages| ==> p + 1 in words)
  {
  }

  /** The text blocks of the boxes, joined with blank lines. */
  function JoinBlocks(pdf: Pdf, boxes: seq<Box>): string
    decreases |boxes|
  {
    if boxes == [] then []
    else if |boxes| == 1 then pdf.textbox(boxes[0].page, boxes[0].rect)
    else pdf.textbox(boxes[0].page, boxes[0].rect) + "\n\n" + JoinBlocks(pdf, boxes[1..])
  }

  /** The joined text of a main box with at most one box before it and at most one after it. */
  lemma {:induction false} JoinAround(pdf: Pdf, before: seq<Box>, main: Box, after: seq<Box>)
    requires |before| <= 1 && |after| <= 1
    ensures var t := pdf.textbox(main.page, main.rect);
      var t1 := if before == [] then t else pdf.textbox(before[0].page, before[0].rect) + "\n\n" + t;
      JoinBlocks(pdf, before + [main] + after) ==
        if after == [] then t1 else t1 + "\n\n" + pdf.textbox(after[0].page, after[0].rect)
  {
    var bs := before + [main] + after;
    if before != [] {
      assert bs[0] == before[0] && bs[1..] == [main] + after;
      if after != [] {
        assert bs[1..][1..] == after;
        var tb, tm, ta := pdf.textbox(before[0].page, before[0].rect), pdf.textbox(main.page, main.rect), pdf.textbox(after[0].page, after[0].rect);
        assert JoinBlocks(pdf, [main] + after) == tm + "\n\n" + ta;
        assert JoinBlocks(pdf, bs) == tb + "\n\n" + (tm + "\n\n" + ta);
      }
    } else if after != [] {
      assert bs == [main] + after && bs[1..] == after;
    } else {
      assert bs == [main];
    }
  }

  /** The untidied text block of a hit. */
  function HitText(pdf: Pdf, words: map<nat, seq<Word>>, h: Hit, pad: int, weight: Word -> nat): Result<string>
    requires h.page < |pdf.pages|
  {
    var boxes :- HitBoxes(pdf, words, h.page, h.rect, pad, weight);
    Ok(JoinBlocks(pdf, boxes))
  }
  /** A hit on a page without an entry in the word index raises KeyError. */
  lemma {:induction false} HitTextMissingPage(pdf: Pdf, words: map<nat, seq<Word>>, h: Hit, pad: int, weight: Word -> nat)
    requires h.page < |pdf.pages| && h.page !in words
    ensures HitText(pdf, words, h, pad, weight) == Raise(KeyError)
  {
  }

  /** A hit whose main box fails raises what the main box raises. */
  lemma {:induction false} HitTextMainFails(pdf: Pdf, words: map<nat, seq<Word>>, h: Hit, pad: int, weight: Word -> nat)
    requires h.page < |pdf.pages| && h.page in words
    requires MainBox(pdf, h.page, words[h.page], h.rect, pad, weight).Raise?
    ensures HitText(pdf, words, h, pad, weight) == Raise(MainBox(pdf, h.page, words[h.page], h.rect, pad, weight).error)
  {
  }

  /** Otherwise the text joins the boxes around the main box, or raises what the first failing neighbour raises. */
  lemma {:induction false} HitTextNeighbours(pdf: Pdf, words: map<nat, seq<Word>>, h: Hit, pad: int, weight: Word -> nat)
    requires h.page < |pdf.pages| && h.page in words
    requires MainBox(pdf, h.page, words[h.page], h.rect, pad, weight).Ok?
    ensures var ws := words[h.page];
      var lc, rc := LeftCount(ws, h.rect, pad, weight), RightCount(ws, FirstCovering(ws, h.rect, Right).value, pad, weight);
      HitText(pdf, words, h, pad, weight) ==
        (var boxes :- AroundMain(pdf, words, h.page, lc, rc, pad, weight, MainBox(pdf, h.page, ws, h.rect, pad, weight).value);
         Ok(JoinBlocks(pdf, boxes)))
  {
  }

  // ---------------------------------------------------------------------------
  // search_for_keywords: rows and the whole search
  // ---------------------------------------------------------------------------

  /** The row of one hit with text `text`, or its exception: `[filename, pageno + 1, keyword, tidy_text(text)]`. */
  function HitRow(filename: string, h: Hit, text: Result<string>): (r: Result<Row>)
    ensures r.Ok? <==> text.Ok?
    ensures r.Ok? ==> r.value == Row(filename, h.page + 1, h.keyword, TidyText(text.value))
    ensures r.Raise? ==> r.error == text.error
  {
    var t :- text;
    Ok(Row(filename, h.page + 1, h.keyword, TidyText(t)))
  }

  predicate OnPages(pdf: Pdf, hs: seq<Hit>) {
    forall i :: 0 <= i < |hs| ==> hs[i].page < |pdf.pages|
  }

  /** `f` applied to each element of `xs`, in order. */
  function Each<A, B>(f: A --> B, xs: seq<A>): (ys: seq<B>)
    requires forall i :: 0 <= i < |xs| ==> f.requires(xs[i])
    ensures |ys| == |xs| && forall i :: 0 <= i < |xs| ==> ys[i] == f(xs[i])
  {
    seq(|xs|, i requires 0 <= i < |xs| => f(xs[i]))
  }

  lemma {:induction false} EachAppend<A, B>(f: A --> B, a: seq<A>, b: seq<A>)
    requires forall i :: 0 <= i < |a| ==> f.requires(a[i])
    requires forall i :: 0 <= i < |b| ==> f.requires(b[i])
    ensures forall i :: 0 <= i < |a + b| ==> f.requires((a + b)[i])
    ensures Each(f, a + b) == Each(f, a) + Each(f, b)
  {
    var ab := a + b;
    forall i | 0 <= i < |ab| ensures f.requires(ab[i]) {
      if i < |a| { assert ab[i] == a[i]; } else { assert ab[i] == b[i - |a|]; }
    }
    var l, r := Each(f, ab), Each(f, a) + Each(f, b);
    forall i | 0 <= i < |ab| ensures l[i] == r[i] {
      if i < |a| { assert ab[i] == a[i]; } else { assert ab[i] == b[i - |a|]; }
    }
  }

  /** The untidied text, or the exception, of each hit (see `HitTextsAt`). */
  function HitTexts(pdf: Pdf, words: map<nat, seq<Word>>, hs: seq<Hit>, pad: int, weight: Word -> nat): (ts: seq<Result<string>>)
    requires OnPages(pdf, hs)
    ensures |ts| == |hs|
  {
    Each((h: Hit) requires h.page < |pdf.pages| => HitText(pdf, words, h, pad, weight), hs)
  }

  /** The text of hit `i` is that hit's text. */
  lemma {:induction false} HitTextsAt(pdf: Pdf, words: map<nat, seq<Word>>, hs: seq<Hit>, pad: int, weight: Word -> nat, i: nat)
    requires OnPages(pdf, hs) && i < |hs|
    ensures HitTexts(pdf, words, hs, pad, weight)[i] == HitText(pdf, words, hs[i], pad, weight)
  {
  }

  /** The rows of the hits `hs` with texts `ts`, or the exception of the first hit whose text raised. */
  function Rows(filename: string, hs: seq<Hit>, ts: seq<Result<string>>): Result<seq<Row>>
    requires |ts| == |hs|
  {
    AllOk(RowResults(filename, hs, ts))
  }

  /** The row of each hit, or its exception. */
  function RowResults(filename: string, hs: seq<Hit>, ts: seq<Result<string>>): (rs: seq<Result<Row>>)
    requires |ts| == |hs|
    ensures |rs| == |hs| && forall i :: 0 <= i < |hs| ==> rs[i] == HitRow(filename, hs[i], ts[i])
  {
    seq(|hs|, i requires 0 <= i < |hs| => HitRow(filename, hs[i], ts[i]))
  }

  /** Rows exist exactly when every text does. */
  lemma {:induction false} RowsOk(filename: string, hs: seq<Hit>, ts: seq<Result<string>>)
    requires |ts| == |hs|
    ensures Rows(filename, hs, ts).Ok? <==> forall i :: 0 <= i < |ts| ==> ts[i].Ok?
  {
    var rs := RowResults(filename, hs, ts);
    assert Rows(filename, hs, ts) == AllOk(rs);
    AllOkValues(rs);
    assert forall i :: 0 <= i < |ts| ==> (rs[i].Ok? <==> ts[i].Ok?);
  }

  /** There is then one row per hit, pointwise, carrying the hit's page number, keyword and tidied text. */
  lemma {:induction false} RowsAt(filename: string, hs: seq<Hit>, ts: seq<Result<string>>)
    requires |ts| == |hs|
    requires Rows(filename, hs, ts).Ok?
    ensures |Rows(filename, hs, ts).value| == |hs|
    ensures forall i :: 0 <= i < |hs| ==>
      && ts[i].Ok?
      && Rows(filename, hs, ts).value[i] == Row(filename, hs[i].page + 1, hs[i].keyword, TidyText(ts[i].value))
  {
    var rs := RowResults(filename, hs, ts);
    assert Rows(filename, hs, ts) == AllOk(rs);
    AllOkValues(rs);
  }

  /** Without rows, the exception is that of the first hit whose text raised. */
  lemma {:induction false} RowsFirstFailure(filename: string, hs: seq<Hit>, ts: seq<Result<string>>)
    requires |ts| == |hs|
    requires Rows(filename, hs, ts).Raise?
    ensures exists i :: 0 <= i < |ts| && ts[i] == Raise(Rows(filename, hs, ts).error) && forall j :: 0 <= j < i ==> ts[j].Ok?
  {
    var rs := RowResults(filename, hs, ts);
    assert Rows(filename, hs, ts) == AllOk(rs);
    AllOkFirstFailure(rs);
    var i :| 0 <= i < |rs| && rs[i] == Raise(AllOk(rs).error) && forall j :: 0 <= j < i ==> rs[j].Ok?;
    assert ts[i] == Raise(AllOk(rs).error) by {
      assert rs[i] == HitRow(filename, hs[i], ts[i]);
    }
    assert forall j :: 0 <= j < i ==> ts[j].Ok? by {
      assert forall j :: 0 <= j < i ==> rs[j] == HitRow(filename, hs[j], ts[j]);
    }
  }

  lemma {:induction false} RowResultsAppend(filename: string, hs: seq<Hit>, ts: seq<Result<string>>, more: seq<Hit>, mts: seq<Result<string>>)
    requires |ts| == |hs| && |mts| == |more|
    ensures RowResults(filename, hs + more, ts + mts) == RowResults(filename, hs, ts) + RowResults(filename, more, mts)
  {
    var a, b := RowResults(filename, hs, ts), RowResults(filename, more, mts);
    var all := RowResults(filename, hs + more, ts + mts);
    forall i | 0 <= i < |all| ensures all[i] == (a + b)[i] {
      if i < |hs| {
        assert (hs + more)[i] == hs[i] && (ts + mts)[i] == ts[i];
      } else {
        assert (hs + more)[i] == more[i - |hs|] && (ts + mts)[i] == mts[i - |hs|];
      }
    }
  }

  /** The rows of two runs of hits are those of the first, then those of the second; the first exception wins. */
  lemma {:induction false} RowsAppend(filename: string, a: seq<Hit>, ta: seq<Result<string>>, b: seq<Hit>, tb: seq<Result<string>>)
    requires |ta| == |a| && |tb| == |b|
    ensures Rows(filename, a + b, ta + tb) ==
      (var ra :- Rows(filename, a, ta);
       var rb :- Rows(filename, b, tb);
       Ok(ra + rb))
  {
    RowResultsAppend(filename, a, ta, b, tb);
    AllOkAppend(RowResults(filename, a, ta), RowResults(filename, b, tb));
  }

  /** The rows of the first `j + 1` hits extend those of the first `j` by the row of hit `j`. */
  lemma {:induction false} RowsStepOk(filename: string, hs: seq<Hit>, ts: seq<Result<string>>, j: nat, rows: seq<Row>)
    requires |ts| == |hs| && j < |hs| && ts[j].Ok?
    requires Rows(filename, hs[..j], ts[..j]) == Ok(rows)
    ensures Rows(filename, hs[..j + 1], ts[..j + 1]) == Ok(rows + [HitRow(filename, hs[j], ts[j]).value])
  {
    var a, ta, b, tb := hs[..j], ts[..j], [hs[j]], [ts[j]];
    var row := HitRow(filename, hs[j], ts[j]).value;
    RowsSingle(filename, hs[j], ts[j]);
    TakeSnoc(hs, j);
    TakeSnoc(ts, j);
    RowsAfterBothOk(filename, a, ta, b, tb, rows, [row]);
  }

  /** Two runs of hits whose rows succeed: the rows of both, one after the other. */
  lemma {:induction false} RowsAfterBothOk(filename: string, a: seq<Hit>, ta: seq<Result<string>>, b: seq<Hit>, tb: seq<Result<string>>, x: seq<Row>, y: seq<Row>)
    requires |ta| == |a| && |tb| == |b|
    requires Rows(filename, a, ta) == Ok(x) && Rows(filename, b, tb) == Ok(y)
    ensures Rows(filename, a + b, ta + tb) == Ok(x + y)
  {
    RowsAppend(filename, a, ta, b, tb);
  }

  /** When the text of hit `j` raises after the first `j` rows succeeded, the rows of all the hits fail with its exception. */
  lemma {:induction false} RowsStepRaise(filename: string, hs: seq<Hit>, ts: seq<Result<string>>, j: nat)
    requires |ts| == |hs| && j < |hs| && ts[j].Raise?
    requires Rows(filename, hs[..j], ts[..j]).Ok?
    ensures Rows(filename, hs, ts) == Raise(ts[j].error)
  {
    assert hs == hs[..j] + hs[j..] && ts == ts[..j] + ts[j..];
    RowsHeadRaises(filename, hs[j..], ts[j..]);
    RowsAfterOk(filename, hs[..j], ts[..j], hs[j..], ts[j..]);
  }

  /** Hits whose first text raises have that exception for rows. */
  lemma {:induction false} RowsHeadRaises(filename: string, hs: seq<Hit>, ts: seq<Result<string>>)
    requires |ts| == |hs| && hs != [] && ts[0].Raise?
    ensures Rows(filename, hs, ts) == Raise(ts[0].error)
  {
    assert hs == [hs[0]] + hs[1..] && ts == [ts[0]] + ts[1..];
    RowsSingle(filename, hs[0], ts[0]);
    RowsAppend(filename, [hs[0]], [ts[0]], hs[1..], ts[1..]);
  }

  /** After a run of hits whose rows succeed, the rows of what follows decide the failure. */
  lemma {:induction false} RowsAfterOk(filename: string, a: seq<Hit>, ta: seq<Result<string>>, b: seq<Hit>, tb: seq<Result<string>>)
    requires |ta| == |a| && |tb| == |b|
    requires Rows(filename, a, ta).Ok? && Rows(filename, b, tb).Raise?
    ensures Rows(filename, a + b, ta + tb) == Rows(filename, b, tb)
  {
    RowsAppend(filename, a, ta, b, tb);
  }

  /** The rows of a single hit: its row, or its exception. */
  lemma {:induction false} RowsSingle(filename: string, h: Hit, t: Result<string>)
    ensures Rows(filename, [h], [t]) == (var row :- HitRow(filename, h, t); Ok([row]))
  {
    var rs := RowResults(filename, [h], [t]);
    assert rs == [HitRow(filename, h, t)];
    AllOkSingle(HitRow(filename, h, t));
  }

  /** The texts of two runs of hits, one after the other. */
  lemma {:induction false} HitTextsAppend(pdf: Pdf, words: map<nat, seq<Word>>, a: seq<Hit>, b: seq<Hit>, pad: int, weight: Word -> nat)
    requires OnPages(pdf, a) && OnPages(pdf, b)
    ensures OnPages(pdf, a + b)
    ensures HitTexts(pdf, words, a + b, pad, weight) == HitTexts(pdf, words, a, pad, weight) + HitTexts(pdf, words, b, pad, weight)
  {
    EachAppend((h: Hit) requires h.page < |pdf.pages| => HitText(pdf, words, h, pad, weight), a, b);
  }

  /** The rows of the search over two runs of hits, one after the other. */
  lemma {:induction false} SearchRowsAppend(pdf: Pdf, words: map<nat, seq<Word>>, filename: string, a: seq<Hit>, b: seq<Hit>, pad: int, weight: Word -> nat)
    requires OnPages(pdf, a) && OnPages(pdf, b)
    ensures OnPages(pdf, a + b)
    ensures Rows(filename, a + b, HitTexts(pdf, words, a + b, pad, weight)) ==
      (var ra :- Rows(filename, a, HitTexts(pdf, words, a, pad, weight));
       var rb :- Rows(filename, b, HitTexts(pdf, words, b, pad, weight));
       Ok(ra + rb))
  {
    HitTextsAppend(pdf, words, a, b, pad, weight);
    RowsAppend(filename, a, HitTexts(pdf, words, a, pad, weight), b, HitTexts(pdf, words, b, pad, weight));
  }

  /** The rows of the search over one hit: its row, or the exception of its text. */
  lemma {:induction false} SearchRowsSingle(pdf: Pdf, words: map<nat, seq<Word>>, filename: string, h: Hit, pad: int, weight: Word -> nat)
    requires h.page < |pdf.pages|
    ensures OnPages(pdf, [h])
    ensures Rows(filename, [h], HitTexts(pdf, words, [h], pad, weight)) ==
      (var row :- HitRow(filename, h, HitText(pdf, words, h, pad, weight)); Ok([row]))
  {
    HitTextsAt(pdf, words, [h], pad, weight, 0);
    assert HitTexts(pdf, words, [h], pad, weight) == [HitText(pdf, words, h, pad, weight)];
    RowsSingle(filename, h, HitText(pdf, words, h, pad, weight));
  }

  /** Once the rows of a run of hits fail, so do those of every run it begins, with the same exception. */
  lemma {:induction false} SearchRowsPrefix(pdf: Pdf, words: map<nat, seq<Word>>, filename: string, pre: seq<Hit>, all: seq<Hit>, pad: int, weight: Word -> nat)
    requires OnPages(pdf, all) && pre <= all
    requires OnPages(pdf, pre)
    requires Rows(filename, pre, HitTexts(pdf, words, pre, pad, weight)).Raise?
    ensures Rows(filename, all, HitTexts(pdf, words, all, pad, weight)) == Rows(filename, pre, HitTexts(pdf, words, pre, pad, weight))
  {
    var rest := all[|pre|..];
    assert all == pre + rest;
    assert OnPages(pdf, rest) by {
      forall i | 0 <= i < |rest| ensures rest[i].page < |pdf.pages| {
        assert rest[i] == all[|pre| + i];
      }
    }
    SearchRowsAppend(pdf, words, filename, pre, rest, pad, weight);
  }

  /** The hits of the first `n` pages come first among those of the first `m`. */
  lemma {:induction false} HitsPrefix(pdf: Pdf, keywords: seq<string>, n: nat, m: nat)
    requires n <= m
    ensures Hits(pdf, keywords, n) <= Hits(pdf, keywords, m)
    decreases m
  {
    if n < m {
      HitsPrefix(pdf, keywords, n, m - 1);
    }
  }

  /** The hits of the first `k` keywords come first among a page's hits. */
  lemma {:induction false} PageHitsPrefix(pdf: Pdf, p: nat, keywords: seq<string>, k: nat)
    requires k <= |keywords|
    ensures PageHits(pdf, p, keywords[..k]) <= PageHits(pdf, p, keywords)
    decreases |keywords|
  {
    if k < |keywords| {
      var init := keywords[..|keywords| - 1];
      assert init[..k] == keywords[..k];
      PageHitsPrefix(pdf, p, init, k);
    } else {
      assert keywords[..k] == keywords;
    }
  }

  /** The instance map of one more page. */
  lemma {:induction false} InstancesSnoc(pdf: Pdf, keywords: seq<string>, p: nat)
    ensures Instances(pdf, keywords, p + 1) == Instances(pdf, keywords, p)[p := PageRects(pdf, p, keywords)]
  {
  }

  /** The hits of one more keyword on a page. */
  lemma {:induction false} PageHitsSnoc(pdf: Pdf, p: nat, keywords: seq<string>, k: nat)
    requires k < |keywords|
    ensures PageHits(pdf, p, keywords[..k + 1]) == PageHits(pdf, p, keywords[..k]) + KeywordHits(pdf, p, keywords[k])
    ensures PageRects(pdf, p, keywords[..k + 1]) == PageRects(pdf, p, keywords[..k]) + pdf.searchFor(p, keywords[k])
  {
    assert keywords[..k + 1][..k] == keywords[..k];
  }

  /** Every hit of a page lies on it. */
  lemma {:induction false} PageHitsOnPages(pdf: Pdf, p: nat, keywords: seq<string>)
    requires p < |pdf.pages|
    ensures OnPages(pdf, PageHits(pdf, p, keywords))
  {
    PageHitsOnPage(pdf, p, keywords);
  }

  /**
    `search_for_keywords(keywords, word_pad)`: the rows of every hit on every page, in page,
    keyword and rectangle order, each from the word index; and the instance map with a key for
    every page.
   */
  function Search(pdf: Pdf, filename: string, keywords: seq<string>, pad: int, weight: Word -> nat): Result<(seq<Row>, PageInstances)>
  {
    SearchIn(pdf, WordIndex(pdf.pages), filename, keywords, pad, weight)
  }

  /** The search over the word index `words`. */
  function SearchIn(pdf: Pdf, words: map<nat, seq<Word>>, filename: string, keywords: seq<string>, pad: int, weight: Word -> nat): Result<(seq<Row>, PageInstances)>
  {
    HitsOnPages(pdf, keywords);
    var hs := Hits(pdf, keywords, |pdf.pages|);
    var rows :- Rows(filename, hs, HitTexts(pdf, words, hs, pad, weight));
    Ok((rows, Instances(pdf, keywords, |pdf.pages|)))
  }

  /** The rows of the first `p + 1` pages: those of the first `p`, then those of page `p`. */
  lemma {:induction false} SearchStep(pdf: Pdf, words: map<nat, seq<Word>>, filename: string, keywords: seq<string>, pad: int, weight: Word -> nat, p: nat, rows: seq<Row>, more: seq<Row>)
    requires p < |pdf.pages| && OnPages(pdf, Hits(pdf, keywords, p)) && OnPages(pdf, PageHits(pdf, p, keywords))
    requires Rows(filename, Hits(pdf, keywords, p), HitTexts(pdf, words, Hits(pdf, keywords, p), pad, weight)) == Ok(rows)
    requires Rows(filename, PageHits(pdf, p, keywords), HitTexts(pdf, words, PageHits(pdf, p, keywords), pad, weight)) == Ok(more)
    ensures OnPages(pdf, Hits(pdf, keywords, p + 1))
    ensures Rows(filename, Hits(pdf, keywords, p + 1), HitTexts(pdf, words, Hits(pdf, keywords, p + 1), pad, weight)) == Ok(rows + more)
  {
    SearchRowsAppend(pdf, words, filename, Hits(pdf, keywords, p), PageHits(pdf, p, keywords), pad, weight);
  }

  /** When the rows of page `p` raise after those of the pages before it succeeded, the search raises the same. */
  lemma {:induction false} SearchStop(pdf: Pdf, words: map<nat, seq<Word>>, filename: string, keywords: seq<string>, pad: int, weight: Word -> nat, p: nat)
    requires p < |pdf.pages| && OnPages(pdf, Hits(pdf, keywords, p)) && OnPages(pdf, PageHits(pdf, p, keywords))
    requires Rows(filename, Hits(pdf, keywords, p), HitTexts(pdf, words, Hits(pdf, keywords, p), pad, weight)).Ok?
    requires Rows(filename, PageHits(pdf, p, keywords), HitTexts(pdf, words, PageHits(pdf, p, keywords), pad, weight)).Raise?
    ensures SearchIn(pdf, words, filename, keywords, pad, weight)
      == Raise(Rows(filename, PageHits(pdf, p, keywords), HitTexts(pdf, words, PageHits(pdf, p, keywords), pad, weight)).error)
  {
    var done, more := Hits(pdf, keywords, p), PageHits(pdf, p, keywords);
    SearchRowsAppend(pdf, words, filename, done, more, pad, weight);
    HitsPrefix(pdf, keywords, p + 1, |pdf.pages|);
    HitsOnPages(pdf, keywords);
    SearchRowsPrefix(pdf, words, filename, done + more, Hits(pdf, keywords, |pdf.pages|), pad, weight);
  }

  /** Once every page's rows succeeded, the search returns them with the instance map of all the pages. */
  lemma {:induction false} SearchDone(pdf: Pdf, words: map<nat, seq<Word>>, filename: string, keywords: seq<string>, pad: int, weight: Word -> nat, rows: seq<Row>)
    requires OnPages(pdf, Hits(pdf, keywords, |pdf.pages|))
    requires Rows(filename, Hits(pdf, keywords, |pdf.pages|), HitTexts(pdf, words, Hits(pdf, keywords, |pdf.pages|), pad, weight)) == Ok(rows)
    ensures SearchIn(pdf, words, filename, keywords, pad, weight) == Ok((rows, Instances(pdf, keywords, |pdf.pages|)))
  {
  }

  lemma {:induction false} HitsOnPages(pdf: Pdf, keywords: seq<string>)
    ensures OnPages(pdf, Hits(pdf, keywords, |pdf.pages|))
  {
    HitsBefore(pdf, keywords, |pdf.pages|);
  }

  /**
    The search result, described by the hits: it succeeds exactly when every hit's row does, with
    one row per hit, pointwise, and an instance entry for every page listing that page's hits; it
    fails with the exception of the first hit, in page, keyword and rectangle order, that raises.
   */
  lemma {:induction false} SearchSpec(pdf: Pdf, filename: string, keywords: seq<string>, pad: int, weight: Word -> nat)
    ensures OnPages(pdf, Hits(pdf, keywords, |pdf.pages|))
    ensures var hs := Hits(pdf, keywords, |pdf.pages|);
      var ts := HitTexts(pdf, WordIndex(pdf.pages), hs, pad, weight);
      && (Search(pdf, filename, keywords, pad, weight).Ok? <==> Rows(filename, hs, ts).Ok?)
      && (Search(pdf, filename, keywords, pad, weight).Ok? ==>
            var (rows, inst) := Search(pdf, filename, keywords, pad, weight).value;
            && rows == Rows(filename, hs, ts).value
            && (forall p: nat :: p in inst <==> p < |pdf.pages|)
            && (forall p: nat :: p < |pdf.pages| ==> inst[p] == RectsOf(OnPage(hs, p))))
      && (Search(pdf, filename, keywords, pad, weight).Raise? ==>
            Search(pdf, filename, keywords, pad, weight).error == Rows(filename, hs, ts).error)
  {
    HitsOnPages(pdf, keywords);
    var hs := Hits(pdf, keywords, |pdf.pages|);
    forall p: nat | p < |pdf.pages| ensures Instances(pdf, keywords, |pdf.pages|)[p] == RectsOf(OnPage(hs, p)) {
      InstancesMatchHits(pdf, keywords, |pdf.pages|, p);
    }
  }
}

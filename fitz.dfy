/**
  What the searcher takes from PyMuPDF (`fitz`): word entries, rectangles, page sizes,
  and two queries on the text layer that are given here rather than computed.
 */
module Fitz {

  /** One entry of `page.get_text("words")`: its box `(x0, y0, x1, y1)` and its text. */
  datatype Word = Word(x0: real, y0: real, x1: real, y1: real, text: string)

  /** A rectangle `(x0, y0, x1, y1)`, as `page.search_for` returns and `page.get_textbox` takes. */
  datatype Rect = Rect(x0: real, y0: real, x1: real, y1: real)

  /** One page: its word entries in the order the text layer gives them, and the size of `page.rect`. */
  datatype Page = Page(words: seq<Word>, width: real, height: real)

  /**
    An open document. `searchFor(p, keyword)` stands for `doc[p].search_for(keyword)` and
    `textbox(p, rect)` for `doc[p].get_textbox(rect)`; both are fixed functions of their arguments.
   */
  datatype Pdf = Pdf(pages: seq<Page>, searchFor: (nat, string) -> seq<Rect>, textbox: (nat, Rect) -> string)

  /** `doc[i]` for `-len(doc) <= i < len(doc)`: a negative index counts from the last page. */
  function PageAt(pdf: Pdf, i: int): (pg: Page)
    requires -|pdf.pages| <= i < |pdf.pages|
    ensures pg == pdf.pages[if i < 0 then i + |pdf.pages| else i]
  {
    if i < 0 then pdf.pages[i + |pdf.pages|] else pdf.pages[i]
  }

  /** `doc[i - len(doc)]` is `doc[i]`: `doc[-1]` is the last page. */
  lemma {:induction false} PageAtWrap(pdf: Pdf, i: nat)
    requires i < |pdf.pages|
    ensures PageAt(pdf, i - |pdf.pages|) == PageAt(pdf, i)
    ensures i == |pdf.pages| - 1 ==> PageAt(pdf, -1) == pdf.pages[|pdf.pages| - 1]
  {
  }
}

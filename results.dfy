/** What a search produces: result rows, instance maps and the running summary. */
module Results {
  import opened Fitz

  /** One result row `[filename, page number (1-based), keyword, text block]`. */
  datatype Row = Row(file: string, page: int, keyword: string, text: string)

  /** `results_summary`: the number of rows found, and of documents with at least one row. */
  datatype Summary = Summary(keywords: nat, documents: nat)

  /** One document's instance map: from a 0-based page number to the hit rectangles found on that page. */
  type PageInstances = map<nat, seq<Rect>>
}

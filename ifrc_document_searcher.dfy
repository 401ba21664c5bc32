/**
  `DocumentSearcher.search_for_keywords` of ifrc_keyword_searcher/document_searcher.py: the batch
  loop over a list of files, with cancellation, the PDF suffix check, one `Document` search per
  file whose errors are logged and swallowed, and the accumulation of rows, instance maps and counters.
 */
module IfrcDocumentSearcher {
  import opened Wrappers
  import opened PyPath
  import opened Fitz
  import opened Results
  import opened DocumentSpec
  import opened Document
  import opened Scan
  import opened Tally
  import opened Settings

  /**
    The arguments of one search: the searched folder, the keywords and the word pad, with what
    `fitz.open` makes of each path (None when it raises) and `os.path.relpath`.
   */
  datatype Query = Query(
    searchFolder: string,
    keywords: seq<string>,
    wordPad: int,
    fitzOpen: string -> Option<Pdf>,
    relpath: (string, string) -> string)

  /** `result[0] = os.path.relpath(result[0], search_folder)` for every row. */
  function Relative(rows: seq<Row>, q: Query): (r: seq<Row>)
    ensures |r| == |rows|
    ensures forall i :: 0 <= i < |rows| ==> r[i] == rows[i].(file := q.relpath(rows[i].file, q.searchFolder))
  {
    seq(|rows|, i requires 0 <= i < |rows| => rows[i].(file := q.relpath(rows[i].file, q.searchFolder)))
  }

  /**
    What the file at `filepath` adds. Nothing when `Document(filepath)` raises (the outer `except`)
    or its suffix is not exactly `.pdf`; otherwise its rows with relative file names and its
    instance map, under its relative path, or no rows and an empty map when its search raises.
   */
  function FileContribution(filepath: string, q: Query): Contribution {
    match q.fitzOpen(filepath)
    case None => Skipped
    case Some(pdf) =>
      if Suffix(Basename(filepath)) != ".pdf" then Skipped
      else
        var found: (seq<Row>, PageInstances) :=
          match Search(pdf, Basename(filepath), q.keywords, q.wordPad, Tokens)
          case Ok(v) => v
          case Raise(_) => ([], map[]);
        Searched(q.relpath(filepath, q.searchFolder), Relative(found.0, q), found.1)
  }

  /** The contributions of the first `n` files. */
  function Contributions(filepaths: seq<string>, q: Query, n: nat): (cs: seq<Contribution>)
    requires n <= |filepaths|
    ensures |cs| == n && forall j :: 0 <= j < n ==> cs[j] == FileContribution(filepaths[j], q)
  {
    seq(n, j requires 0 <= j < n => FileContribution(filepaths[j], q))
  }

  /** The tally after one more file. */
  lemma {:induction false} AccumulateStep(filepaths: seq<string>, q: Query, n: nat)
    requires n < |filepaths|
    ensures Accumulate(None, Contributions(filepaths, q, n + 1)) == Record(Accumulate(None, Contributions(filepaths, q, n)), FileContribution(filepaths[n], q))
  {
    var cs := Contributions(filepaths, q, n + 1);
    assert cs[..n] == Contributions(filepaths, q, n);
  }

  /**
    The rows of a file whose search raised are none, and its instance map is empty; a file that
    cannot be opened or is not a PDF contributes nothing, not even an instance entry.
   */
  lemma {:induction false} FileContributionCases(filepath: string, q: Query)
    ensures FileContribution(filepath, q).Skipped? <==> q.fitzOpen(filepath).None? || Suffix(Basename(filepath)) != ".pdf"
    ensures FileContribution(filepath, q).Searched? ==>
      var pdf := q.fitzOpen(filepath).value;
      var r := Search(pdf, Basename(filepath), q.keywords, q.wordPad, Tokens);
      && FileContribution(filepath, q).key == q.relpath(filepath, q.searchFolder)
      && (r.Raise? ==> FileContribution(filepath, q).rows == [] && FileContribution(filepath, q).instances == map[])
      && (r.Ok? ==> FileContribution(filepath, q).rows == Relative(r.value.0, q) && FileContribution(filepath, q).instances == r.value.1)
  {
  }

  /** `for result in results: result[0] = os.path.relpath(result[0], search_folder)` */
  method MakeRelative(results: seq<Row>, q: Query) returns (r: seq<Row>)
    ensures r == Relative(results, q)
  {
    r := results;
    for i := 0 to |r|
      invariant |r| == |results|
      invariant forall j :: 0 <= j < i ==> r[j] == results[j].(file := q.relpath(results[j].file, q.searchFolder))
      invariant forall j :: i <= j < |r| ==> r[j] == results[j]
    {
      r := r[i := r[i].(file := q.relpath(r[i].file, q.searchFolder))];
    }
  }

  /**
    The loop body for one file that passed the cancellation check: records what `FileContribution`
    says in `settings` and `summary`.
   */
  method SearchFile(settings: Globals, filepath: string, q: Query, summary: Summary) returns (summary': Summary)
    modifies settings
    ensures Tally(settings.keywordResults, settings.keywordInstances, summary')
      == Record(Tally(old(settings.keywordResults), old(settings.keywordInstances), summary), FileContribution(filepath, q))
    ensures settings.searching == old(settings.searching)
  {
    var c := OpenAndSearch(filepath, q);
    summary' := RecordContribution(settings, c, summary);
  }

  /** The accumulation step for contribution `c`; returns the new counters. */
  method RecordContribution(settings: Globals, c: Contribution, summary: Summary) returns (summary': Summary)
    modifies settings
    ensures Tally(settings.keywordResults, settings.keywordInstances, summary')
      == Record(Tally(old(settings.keywordResults), old(settings.keywordInstances), summary), c)
    ensures settings.searching == old(settings.searching)
  {
    summary' := summary;
    if c.Skipped? {
      return;
    }
    if settings.keywordResults.None? {
      settings.keywordResults := Some(c.rows);
    } else {
      settings.keywordResults := Some(settings.keywordResults.value + c.rows);
    }
    settings.keywordInstances := settings.keywordInstances[c.key := c.instances];
    if c.rows != [] {
      summary' := Summary(summary.keywords + |c.rows|, summary.documents + 1);
    }
  }

  /**
    `doc = Document(filepath)`, the suffix check, the document's search with its exception logged,
    and the relative file names: what the file adds.
   */
  method OpenAndSearch(filepath: string, q: Query) returns (c: Contribution)
    ensures c == FileContribution(filepath, q)
  {
    var pdf := q.fitzOpen(filepath);
    if pdf.None? {
      return Skipped;
    }
    var doc := new Document(filepath, pdf.value);
    if doc.fileExtension != ".pdf" {
      return Skipped;
    }
    var results: seq<Row> := [];
    var instances: PageInstances := map[];
    var found := doc.SearchForKeywords(q.keywords, q.wordPad);
    if found.Ok? {
      results, instances := found.value.0, found.value.1;
    }
    results := MakeRelative(results, q);
    c := Searched(q.relpath(filepath, q.searchFolder), results, instances);
  }

  /**
    File `i` of the loop: the cancellation check, then the file's search and its accumulation step.
   */
  method VisitAt(settings: Globals, filepaths: seq<string>, q: Query, stillSearching: nat -> bool, i: nat, summary: Summary)
    returns (summary': Summary, go: bool)
    requires i < |filepaths|
    requires Tally(settings.keywordResults, settings.keywordInstances, summary) == Accumulate(None, Contributions(filepaths, q, i))
    modifies settings
    ensures go == stillSearching(i) == settings.searching
    ensures !go ==> settings.keywordResults == old(settings.keywordResults) && settings.keywordInstances == old(settings.keywordInstances) && summary' == summary
    ensures go ==> Tally(settings.keywordResults, settings.keywordInstances, summary') == Accumulate(None, Contributions(filepaths, q, i + 1))
  {
    settings.searching := stillSearching(i);
    summary' := summary;
    go := settings.searching;
    if !go {
      return;
    }
    AccumulateStep(filepaths, q, i);
    summary' := SearchFile(settings, filepaths[i], q, summary);
  }

  /**
    The loop: `stillSearching(i)` is the value of `settings.searching` at the check before file `i`.
    It goes through the files before the first check that reads false, then clears the flag.
    `table` is what the results table receives: TypeError when `keyword_results` is still None.
   */
  method SearchForKeywords(settings: Globals, filepaths: seq<string>, q: Query, stillSearching: nat -> bool)
    returns (summary: Summary, table: Result<seq<Row>>)
    modifies settings
    ensures var t := Accumulate(None, Contributions(filepaths, q, FirstFalse(|filepaths|, stillSearching)));
      && settings.keywordResults == t.results
      && settings.keywordInstances == t.instances
      && summary == t.summary
      && table == (if t.results.None? then Raise(TypeError) else Ok(t.results.value))
    ensures !settings.searching
  {
    settings.keywordResults := None;
    settings.keywordInstances := map[];
    summary := Summary(0, 0);
    var i := 0;
    while i < |filepaths|
      invariant 0 <= i <= |filepaths|
      invariant forall j :: 0 <= j < i ==> stillSearching(j)
      invariant Tally(settings.keywordResults, settings.keywordInstances, summary) == Accumulate(None, Contributions(filepaths, q, i))
    {
      var go;
      summary, go := VisitAt(settings, filepaths, q, stillSearching, i, summary);
      if !go {
        break;
      }
      i := i + 1;
    }
    FirstFalseUnique(|filepaths|, stillSearching, i);
    settings.searching := false;
    if settings.keywordResults.None? {
      table := Raise(TypeError);
    } else {
      table := Ok(settings.keywordResults.value);
    }
  }
}

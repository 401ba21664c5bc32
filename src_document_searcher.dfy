/**
  `DocumentSearcher.search_for_keywords` of src/document_searcher.py: the simpler batch loop,
  without any exception handling. It resets the globals, searches each file with `Document`, keys
  the instance maps by `doc.filename` and counts rows and documents.
 */
module SrcDocumentSearcher {
  import opened Wrappers
  import opened PyPath
  import opened Fitz
  import opened Results
  import opened DocumentSpec
  import opened Document
  import opened Scan
  import opened Tally
  import opened Settings

  /** The keywords, the word pad, and what `fitz.open` makes of each path (None when it raises). */
  datatype Query = Query(keywords: seq<string>, wordPad: int, fitzOpen: string -> Option<Pdf>)

  /**
    What searching the file at `filepath` gives: OpenError when `Document(filepath)` raises;
    NameError when its suffix is not exactly `.pdf`, because the warning message names the
    undefined variable `filename`; otherwise the result of the document's search.
   */
  function FileOutcome(filepath: string, q: Query): Result<(seq<Row>, PageInstances)> {
    match q.fitzOpen(filepath)
    case None => Raise(OpenError)
    case Some(pdf) =>
      if Suffix(Basename(filepath)) != ".pdf" then Raise(NameError)
      else Search(pdf, Basename(filepath), q.keywords, q.wordPad, Tokens)
  }

  /** Does the file at index `j` get through without an exception? */
  function Succeeds(filepaths: seq<string>, q: Query): nat -> bool {
    (j: nat) => j < |filepaths| && FileOutcome(filepaths[j], q).Ok?
  }

  /** What a file that got through adds, under `doc.filename`, the base name of its path. */
  function FileContribution(filepath: string, q: Query): Contribution {
    match FileOutcome(filepath, q)
    case Ok((rows, inst)) => Searched(Basename(filepath), rows, inst)
    case Raise(_) => Skipped
  }

  /** The contributions of the first `n` files. */
  function Contributions(filepaths: seq<string>, q: Query, n: nat): (cs: seq<Contribution>)
    requires n <= |filepaths|
    ensures |cs| == n && forall j :: 0 <= j < n ==> cs[j] == FileContribution(filepaths[j], q)
  {
    seq(n, j requires 0 <= j < n => FileContribution(filepaths[j], q))
  }

  /** The tally after one more file. */
  lemma {:induction false} AccumulateStep(filepaths: seq<string>, q: Query, n: nat)
    requires n < |filepaths|
    ensures Accumulate(Some([]), Contributions(filepaths, q, n + 1)) == Record(Accumulate(Some([]), Contributions(filepaths, q, n)), FileContribution(filepaths[n], q))
  {
    var cs := Contributions(filepaths, q, n + 1);
    assert cs[..n] == Contributions(filepaths, q, n);
  }

  /** `doc = Document(filepath)`, the suffix check and `doc.search_for_keywords(...)`: the file's outcome. */
  method SearchFile(filepath: string, q: Query) returns (found: Result<(seq<Row>, PageInstances)>)
    ensures found == FileOutcome(filepath, q)
  {
    var pdf := q.fitzOpen(filepath);
    if pdf.None? {
      return Raise(OpenError);
    }
    var doc := new Document(filepath, pdf.value);
    if doc.fileExtension != ".pdf" {
      return Raise(NameError);
    }
    found := doc.SearchForKeywords(q.keywords, q.wordPad);
  }

  /** The accumulation step for the rows and instance map found in the file at `filepath`; returns the new counters. */
  method RecordFile(settings: Globals, filepath: string, results: seq<Row>, instances: PageInstances, summary: Summary) returns (summary': Summary)
    modifies settings
    ensures Tally(settings.keywordResults, settings.keywordInstances, summary')
      == Record(Tally(old(settings.keywordResults), old(settings.keywordInstances), summary), Searched(Basename(filepath), results, instances))
    ensures settings.searching == old(settings.searching)
  {
    if settings.keywordResults.None? {
      settings.keywordResults := Some(results);
    } else {
      settings.keywordResults := Some(settings.keywordResults.value + results);
    }
    settings.keywordInstances := settings.keywordInstances[Basename(filepath) := instances];
    summary' := summary;
    if results != [] {
      summary' := Summary(summary.keywords + |results|, summary.documents + 1);
    }
  }

  /**
    The loop body for file `i`: the check of the flag, then the file's outcome, and on success the
    tally extended by the file's contribution; an exception leaves the tally as it was.
   */
  method VisitAt(settings: Globals, filepaths: seq<string>, q: Query, stillSearching: nat -> bool, i: nat, summary: Summary)
    returns (go: bool, outcome: Result<Summary>)
    requires i < |filepaths|
    requires forall j :: 0 <= j < i ==> stillSearching(j)
    requires forall j :: 0 <= j < i ==> Succeeds(filepaths, q)(j)
    requires Tally(settings.keywordResults, settings.keywordInstances, summary) == Accumulate(Some([]), Contributions(filepaths, q, i))
    modifies settings
    ensures go == stillSearching(i) == settings.searching
    ensures go ==> forall j :: 0 <= j < i + 1 ==> stillSearching(j)
    ensures !go ==> settings.keywordResults == old(settings.keywordResults) && settings.keywordInstances == old(settings.keywordInstances)
    ensures go && outcome.Raise? ==> !Succeeds(filepaths, q)(i) && FileOutcome(filepaths[i], q) == Raise(outcome.error)
    ensures go && outcome.Raise? ==> settings.keywordResults == old(settings.keywordResults) && settings.keywordInstances == old(settings.keywordInstances)
    ensures go && outcome.Ok? ==> forall j :: 0 <= j < i + 1 ==> Succeeds(filepaths, q)(j)
    ensures go && outcome.Ok? ==> Tally(settings.keywordResults, settings.keywordInstances, outcome.value) == Accumulate(Some([]), Contributions(filepaths, q, i + 1))
  {
    settings.searching := stillSearching(i);
    go := settings.searching;
    outcome := Ok(summary);
    if !go {
      return;
    }
    HoldsThrough(stillSearching, i);
    var found := SearchFile(filepaths[i], q);
    if found.Raise? {
      return true, Raise(found.error);
    }
    HoldsThrough(Succeeds(filepaths, q), i);
    AccumulateStep(filepaths, q, i);
    var summary' := RecordFile(settings, filepaths[i], found.value.0, found.value.1, summary);
    outcome := Ok(summary');
  }

  /**
    The loop: `stillSearching(i)` is the value of `settings.searching` at the check before file `i`
    (the flag is set on entry). It goes through the files until the first check that reads false,
    or until a file raises; the exception then ends the search with the flag still set, the files
    before it recorded. Otherwise the flag is cleared and the counters are returned.
   */
  method SearchForKeywords(settings: Globals, filepaths: seq<string>, q: Query, stillSearching: nat -> bool)
    returns (r: Result<Summary>)
    modifies settings
    ensures var k := FirstFalse(|filepaths|, stillSearching);
      var done := FirstFalse(k, Succeeds(filepaths, q));
      var t := Accumulate(Some([]), Contributions(filepaths, q, done));
      && settings.keywordResults == t.results
      && settings.keywordInstances == t.instances
      && (done < k ==> r.Raise? && FileOutcome(filepaths[done], q) == Raise(r.error) && settings.searching)
      && (done == k ==> r == Ok(t.summary) && !settings.searching)
  {
    settings.searching := true;
    settings.keywordResults := Some([]);
    settings.keywordInstances := map[];
    var summary := Summary(0, 0);
    var i := 0;
    while i < |filepaths|
      invariant 0 <= i <= |filepaths|
      invariant forall j :: 0 <= j < i ==> stillSearching(j)
      invariant forall j :: 0 <= j < i ==> Succeeds(filepaths, q)(j)
      invariant Tally(settings.keywordResults, settings.keywordInstances, summary) == Accumulate(Some([]), Contributions(filepaths, q, i))
    {
      var go, outcome := VisitAt(settings, filepaths, q, stillSearching, i, summary);
      if !go {
        break;
      }
      if outcome.Raise? {
        ghost var k := FirstFalse(|filepaths|, stillSearching);
        FirstFalsePast(|filepaths|, stillSearching, i);
        FirstFalseUnique(k, Succeeds(filepaths, q), i);
        return Raise(outcome.error);
      }
      summary := outcome.value;
      i := i + 1;
    }
    FirstFalseUnique(|filepaths|, stillSearching, i);
    FirstFalseUnique(i, Succeeds(filepaths, q), i);
    settings.searching := false;
    r := Ok(summary);
  }
}

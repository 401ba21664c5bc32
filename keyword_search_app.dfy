/**
  The non-GUI logic of search_for_keywords.py: the module globals that the window and the search
  thread share, the file loop `loop_files_search_keywords`, the search button's handler that
  resets the results and starts that loop, the parsing of the keyword box and the clamping of the
  page number of the document viewer.
 */
module KeywordSearchApp {
  import opened Wrappers
  import opened PyStr
  import opened PyPath
  import opened Fitz
  import opened Results
  import opened Scan
  import opened Tally
  import opened LegacySpec
  import opened LegacySearch

  /** The keywords, the word pad, and what `fitz.open` makes of each path (None when it raises). */
  datatype Query = Query(keywords: seq<string>, wordPad: int, fitzOpen: string -> Option<Pdf>)

  // ---------------------------------------------------------------------------
  // What one file does to the globals
  // ---------------------------------------------------------------------------

  /** `keyword_instances[filename] = {}`: the entry every file gets before the cancellation check. */
  function Entered(filepath: string): Contribution {
    Searched(Basename(filepath), [], map[])
  }

  /**
    A file that passed the cancellation check: a name whose suffix is not exactly `.pdf` keeps
    only its empty entry; otherwise what opening and scanning the file gives.
   */
  function FileOutcome(filepath: string, q: Query): (Contribution, Option<PyError>) {
    if Suffix(Basename(filepath)) != ".pdf" then (Entered(filepath), None)
    else PdfOutcome(filepath, q)
  }

  /**
    A file named like a PDF: OpenError when `fitz.open` raises, leaving its empty entry; otherwise
    the scan's instance lists under the file's base name, with its rows when every row was found
    and none, and the exception, when one raised.
   */
  function PdfOutcome(filepath: string, q: Query): (Contribution, Option<PyError>) {
    var name := Basename(filepath);
    match q.fitzOpen(filepath)
    case None => (Entered(filepath), Some(OpenError))
    case Some(pdf) => ScanOutcome(Job(name, pdf, q.keywords, q.wordPad))
  }

  /** The scan of an open file: its instance lists, with its rows, or with none and the exception. */
  function ScanOutcome(job: Job): (Contribution, Option<PyError>) {
    match FileRows(job)
    case Ok(rows) => (Searched(job.filename, rows, ScanInstances(job)), None)
    case Raise(e) => (Searched(job.filename, [], ScanInstances(job)), Some(e))
  }

  /** What one file contributes, by the cases of the loop body. */
  lemma {:induction false} FileOutcomeCases(filepath: string, q: Query)
    ensures var (c, error) := FileOutcome(filepath, q);
      && c.Searched? && c.key == Basename(filepath)
      && (Suffix(Basename(filepath)) != ".pdf" ==> c == Entered(filepath) && error.None?)
      && (Suffix(Basename(filepath)) == ".pdf" && q.fitzOpen(filepath).None? ==> c == Entered(filepath) && error == Some(OpenError))
      && (Suffix(Basename(filepath)) == ".pdf" && q.fitzOpen(filepath).Some? ==>
           (c, error) == ScanOutcome(Job(Basename(filepath), q.fitzOpen(filepath).value, q.keywords, q.wordPad)))
  {
  }

  /** A scan keeps the instance lists it reached, and the file's rows exactly when no row raised. */
  lemma {:induction false} ScanOutcomeCases(job: Job)
    ensures var (c, error) := ScanOutcome(job);
      && c == Searched(job.filename, c.rows, ScanInstances(job))
      && (FileRows(job).Ok? ==> c.rows == FileRows(job).value && error.None?)
      && (FileRows(job).Raise? ==> c.rows == [] && error == Some(FileRows(job).error))
  {
  }

  /** Does the file at index `j` get through the loop body without an exception? */
  function Passes(filepaths: seq<string>, q: Query): nat -> bool {
    (j: nat) => j < |filepaths| && FileOutcome(filepaths[j], q).1.None?
  }

  /** The contributions of the first `n` files. */
  function Contributions(filepaths: seq<string>, q: Query, n: nat): (cs: seq<Contribution>)
    requires n <= |filepaths|
    ensures |cs| == n && forall j :: 0 <= j < n ==> cs[j] == FileOutcome(filepaths[j], q).0
  {
    seq(n, j requires 0 <= j < n => FileOutcome(filepaths[j], q).0)
  }

  /** The tally after one more file. */
  lemma {:induction false} FoldStep(t: Tally, filepaths: seq<string>, q: Query, n: nat)
    requires n < |filepaths|
    ensures Fold(t, Contributions(filepaths, q, n + 1)) == Record(Fold(t, Contributions(filepaths, q, n)), FileOutcome(filepaths[n], q).0)
  {
    var cs := Contributions(filepaths, q, n + 1);
    assert cs[..n] == Contributions(filepaths, q, n);
  }

  /**
    Every file the loop visited, up to `n`, stored an instance map under its base name, so each
    of those names is a key of `keyword_instances`; a later file with the same name overwrites it.
   */
  lemma {:induction false} VisitedKeys(filepaths: seq<string>, q: Query, n: nat)
    requires n <= |filepaths|
    ensures forall j :: 0 <= j < n ==> Basename(filepaths[j]) in Accumulate(Some([]), Contributions(filepaths, q, n)).instances
  {
    var cs := Contributions(filepaths, q, n);
    forall j | 0 <= j < n ensures Basename(filepaths[j]) in Accumulate(Some([]), cs).instances {
      FileOutcomeCases(filepaths[j], q);
      assert StoresKey(cs[j], Basename(filepaths[j]));
      AccumulateInstances(Some([]), cs, Basename(filepaths[j]));
    }
  }

  /** Setting a key to an empty map and then to `c`'s map is setting it to `c`'s map. */
  lemma {:induction false} RecordOverwrites(t: Tally, c: Contribution)
    requires c.Searched?
    ensures Record(t.(instances := t.instances[c.key := map[]]), c) == Record(t, c)
  {
    assert t.instances[c.key := map[]][c.key := c.instances] == t.instances[c.key := c.instances];
  }

  /** An empty entry for `filepath` is what `Record` makes of `Entered(filepath)` on a tally with rows. */
  lemma {:induction false} RecordEntered(t: Tally, filepath: string)
    requires t.results.Some?
    ensures Record(t, Entered(filepath)) == t.(instances := t.instances[Basename(filepath) := map[]])
  {
    assert t.results.value + [] == t.results.value;
  }

  /** The index of the check at which the flag first reads false, or the number of files. */
  function Stop(filepaths: seq<string>, stillSearching: nat -> bool): nat {
    FirstFalse(|filepaths|, stillSearching)
  }

  /** The number of files the loop gets through, before the cancellation or the first exception. */
  function Done(filepaths: seq<string>, q: Query, stillSearching: nat -> bool): (done: nat)
    ensures done <= Stop(filepaths, stillSearching) <= |filepaths|
  {
    FirstFalse(Stop(filepaths, stillSearching), Passes(filepaths, q))
  }

  /**
    What the file loop leaves, from the tally `t0` it starts with: the files it got through are
    recorded in order, then the file whose search raised (its rows not added, the exception
    escaping, the flag still set), or the empty entry of the file at which the flag read false,
    or nothing more when every file was visited; in the last two cases the flag is cleared.
   */
  ghost predicate LoopEnd(filepaths: seq<string>, q: Query, stillSearching: nat -> bool, t0: Tally,
                          state: Tally, error: Option<PyError>, searching: bool) {
    var k := Stop(filepaths, stillSearching);
    var done := Done(filepaths, q, stillSearching);
    var t := Fold(t0, Contributions(filepaths, q, done));
    && (done < k ==> state == Record(t, FileOutcome(filepaths[done], q).0) && error == FileOutcome(filepaths[done], q).1 && error.Some? && searching)
    && (done == k < |filepaths| ==> state == Record(t, Entered(filepaths[k])) && error.None? && !searching)
    && (done == k == |filepaths| ==> state == t && error.None? && !searching)
  }

  /** The number of files the loop visits: those it got through, and the one it stopped at. */
  function Reached(filepaths: seq<string>, q: Query, stillSearching: nat -> bool): (n: nat)
    ensures n <= |filepaths|
  {
    var done := Done(filepaths, q, stillSearching);
    if done < |filepaths| then done + 1 else done
  }

  /** A file whose search raised adds no rows. */
  lemma {:induction false} RaisedNoRows(filepath: string, q: Query)
    requires FileOutcome(filepath, q).1.Some?
    ensures FileOutcome(filepath, q).0.rows == []
  {
    FileOutcomeCases(filepath, q);
    if Suffix(Basename(filepath)) == ".pdf" && q.fitzOpen(filepath).Some? {
      ScanOutcomeCases(Job(Basename(filepath), q.fitzOpen(filepath).value, q.keywords, q.wordPad));
    }
  }

  /**
    After a search started from the button: `keyword_results` is the rows of the files the loop got
    through, concatenated in file order; the counters count them and the files that had any; and
    every file the loop visited, the one it stopped at included, has an entry under its base name.
   */
  lemma {:induction false} SearchTotals(filepaths: seq<string>, q: Query, stillSearching: nat -> bool,
                                        state: Tally, error: Option<PyError>, searching: bool)
    requires LoopEnd(filepaths, q, stillSearching, Tally(Some([]), map[], Summary(0, 0)), state, error, searching)
    ensures var cs := Contributions(filepaths, q, Done(filepaths, q, stillSearching));
      && state.results == Some(Flatten(RowLists(cs)))
      && state.summary.keywords == |Flatten(RowLists(cs))|
      && state.summary.documents == |Productive(cs)|
      && forall j :: 0 <= j < Reached(filepaths, q, stillSearching) ==> Basename(filepaths[j]) in state.instances
  {
    var done := Done(filepaths, q, stillSearching);
    var t := Fold(Tally(Some([]), map[], Summary(0, 0)), Contributions(filepaths, q, done));
    FoldTotals(filepaths, q, done);
    LoopEndState(filepaths, q, stillSearching, Tally(Some([]), map[], Summary(0, 0)), state, error, searching);
    if done < |filepaths| {
      var c := StopFile(filepaths, q, stillSearching);
      StopFileFacts(filepaths, q, stillSearching);
      RecordNoRows(t, c);
      forall j | 0 <= j < done + 1 ensures Basename(filepaths[j]) in state.instances {
        if j < done {
          assert Basename(filepaths[j]) in t.instances;
        }
      }
    }
  }

  /** The contribution of the file the loop stopped at: the one that raised, or the empty entry of the one where the flag read false. */
  function StopFile(filepaths: seq<string>, q: Query, stillSearching: nat -> bool): Contribution
    requires Done(filepaths, q, stillSearching) < |filepaths|
  {
    var done := Done(filepaths, q, stillSearching);
    if done < Stop(filepaths, stillSearching) then FileOutcome(filepaths[done], q).0 else Entered(filepaths[done])
  }

  /** The file the loop stopped at adds no rows, only its entry under its base name. */
  lemma {:induction false} StopFileFacts(filepaths: seq<string>, q: Query, stillSearching: nat -> bool)
    requires Done(filepaths, q, stillSearching) < |filepaths|
    ensures var c := StopFile(filepaths, q, stillSearching);
      c.Searched? && c.key == Basename(filepaths[Done(filepaths, q, stillSearching)]) && c.rows == []
  {
    var done := Done(filepaths, q, stillSearching);
    if done < Stop(filepaths, stillSearching) {
      FirstFalseFacts(Stop(filepaths, stillSearching), Passes(filepaths, q));
      RaisedNoRows(filepaths[done], q);
      FileOutcomeCases(filepaths[done], q);
    }
  }

  /** The state a loop leaves is the tally of the files it got through, with the file it stopped at, if any, recorded last. */
  lemma {:induction false} LoopEndState(filepaths: seq<string>, q: Query, stillSearching: nat -> bool, t0: Tally,
                                        state: Tally, error: Option<PyError>, searching: bool)
    requires LoopEnd(filepaths, q, stillSearching, t0, state, error, searching)
    ensures var t := Fold(t0, Contributions(filepaths, q, Done(filepaths, q, stillSearching)));
      && (Done(filepaths, q, stillSearching) < |filepaths| ==> state == Record(t, StopFile(filepaths, q, stillSearching)))
      && (Done(filepaths, q, stillSearching) == |filepaths| ==> state == t)
  {
  }

  /** The tally of the first `n` files from an empty start: their rows in order, the counters, and a key per file. */
  lemma {:induction false} FoldTotals(filepaths: seq<string>, q: Query, n: nat)
    requires n <= |filepaths|
    ensures var cs := Contributions(filepaths, q, n);
      var t := Fold(Tally(Some([]), map[], Summary(0, 0)), cs);
      && t.results == Some(Flatten(RowLists(cs)))
      && t.summary.keywords == |Flatten(RowLists(cs))|
      && t.summary.documents == |Productive(cs)|
      && forall j :: 0 <= j < n ==> Basename(filepaths[j]) in t.instances
  {
    var cs := Contributions(filepaths, q, n);
    AccumulateFold(Some([]), cs);
    AccumulateRows(Some([]), cs);
    AccumulateSummary(Some([]), cs);
    AccumulateNone(Some([]), cs);
    VisitedKeys(filepaths, q, n);
    assert [] + Flatten(RowLists(cs)) == Flatten(RowLists(cs));
  }

  /** A contribution without rows only sets its entry. */
  lemma {:induction false} RecordNoRows(t: Tally, c: Contribution)
    requires c.Searched? && c.rows == [] && t.results.Some?
    ensures Record(t, c) == t.(instances := t.instances[c.key := c.instances])
  {
    assert t.results.value + [] == t.results.value;
  }

  // ---------------------------------------------------------------------------
  // The keyword box and the page number
  // ---------------------------------------------------------------------------

  /** `[word.strip() for word in text.split('\n') if word.strip() != '']` */
  function ParseKeywords(text: string): seq<string> {
    KeepStripped(SplitOn(text, '\n'))
  }

  /** The stripped lines that are not empty, in order. */
  function KeepStripped(lines: seq<string>): seq<string>
    decreases |lines|
  {
    if lines == [] then []
    else
      var w := Strip(lines[|lines| - 1]);
      KeepStripped(lines[..|lines| - 1]) + if w != [] then [w] else []
  }

  /** Every keyword is a non-empty stripped line of `lines`. */
  lemma {:induction false} KeepStrippedClean(lines: seq<string>)
    ensures forall k :: 0 <= k < |KeepStripped(lines)| ==> KeepStripped(lines)[k] != [] && Stripped(KeepStripped(lines)[k])
    decreases |lines|
  {
    if lines != [] {
      KeepStrippedClean(lines[..|lines| - 1]);
    }
  }

  /** The filter works line by line: the keywords of two blocks of lines are those of the first, then those of the second. */
  lemma {:induction false} KeepStrippedAppend(a: seq<string>, b: seq<string>)
    ensures KeepStripped(a + b) == KeepStripped(a) + KeepStripped(b)
    decreases |b|
  {
    if b == [] {
      assert a + b == a;
    } else {
      var w := Strip(b[|b| - 1]);
      var tail := if w != [] then [w] else [];
      assert (a + b)[..|a + b| - 1] == a + b[..|b| - 1];
      KeepStrippedAppend(a, b[..|b| - 1]);
      assert KeepStripped(a + b) == KeepStripped(a) + KeepStripped(b[..|b| - 1]) + tail;
    }
  }

  /** One line gives its stripped text, or nothing when that is empty. */
  lemma {:induction false} KeepStrippedLine(line: string)
    ensures KeepStripped([line]) == if Strip(line) != [] then [Strip(line)] else []
  {
    assert [line][..0] == [];
  }

  /** Lines that are already non-empty and stripped are all kept, unchanged. */
  lemma {:induction false} KeepStrippedKeeps(lines: seq<string>)
    requires forall k :: 0 <= k < |lines| ==> lines[k] != [] && Stripped(lines[k])
    ensures KeepStripped(lines) == lines
    decreases |lines|
  {
    if lines != [] {
      var init := lines[..|lines| - 1];
      KeepStrippedKeeps(init);
      StripStripped(lines[|lines| - 1]);
      assert init + [lines[|lines| - 1]] == lines;
    }
  }

  /** The keywords are non-empty and have no whitespace at either end. */
  lemma {:induction false} ParseKeywordsClean(text: string)
    ensures forall k :: 0 <= k < |ParseKeywords(text)| ==> ParseKeywords(text)[k] != [] && Stripped(ParseKeywords(text)[k])
  {
    KeepStrippedClean(SplitOn(text, '\n'));
  }

  /** An empty keyword box gives no keywords. */
  lemma {:induction false} ParseKeywordsEmpty()
    ensures ParseKeywords("") == []
  {
    assert SplitOn("", '\n') == [[]];
    KeepStrippedLine([]);
    assert Strip([]) == [];
  }

  /** Keywords typed one per line, each non-empty, stripped and without a line break, are read back as typed. */
  lemma {:induction false} ParseKeywordsJoin(keywords: seq<string>)
    requires |keywords| >= 1
    requires forall k :: 0 <= k < |keywords| ==> keywords[k] != [] && Stripped(keywords[k]) && '\n' !in keywords[k]
    ensures ParseKeywords(Join(keywords, '\n')) == keywords
  {
    SplitOnJoin(keywords, '\n');
    KeepStrippedKeeps(keywords);
  }

  /**
    The page clamp: a page past the last becomes the last, a negative page becomes the first.
    With at least one page the result is a valid page index, and a valid one is kept; with no
    page a non-negative number becomes -1.
   */
  function ClampPage(newPage: int, totalPages: int): (r: int)
    ensures totalPages >= 1 ==> 0 <= r < totalPages
    ensures 0 <= newPage < totalPages ==> r == newPage
    ensures newPage >= totalPages ==> r == totalPages - 1
    ensures newPage < 0 && totalPages >= 0 ==> r == 0
    ensures totalPages == 0 && newPage >= 0 ==> r == -1
  {
    if newPage > totalPages - 1 then totalPages - 1
    else if newPage < 0 then 0
    else newPage
  }

  /** Clamping a clamped page of a non-empty document changes nothing. */
  lemma {:induction false} ClampPageIdempotent(newPage: int, totalPages: int)
    requires totalPages >= 1
    ensures ClampPage(ClampPage(newPage, totalPages), totalPages) == ClampPage(newPage, totalPages)
  {
    var r := ClampPage(newPage, totalPages);
    assert 0 <= r < totalPages;
  }

  // ---------------------------------------------------------------------------
  // The globals and the file loop
  // ---------------------------------------------------------------------------

  /** The module globals of search_for_keywords.py that the search and the viewer use. */
  class App {
    /** `searching`: set when a search starts, cleared by the button to cancel it and by the loop when it ends. */
    var searching: bool
    /** `keyword_results`: the rows found so far. */
    var keywordResults: seq<Row>
    /** `keyword_instances`: per file name, the instance lists of its pages. */
    var keywordInstances: map<string, PageInstances>
    /** `results_summary` */
    var resultsSummary: Summary
    /** `new_page`: the page of the open document the viewer is asked to show. */
    var newPage: int

    /** The start of the program: not searching, nothing found, page 0. */
    constructor ()
      ensures !searching && keywordResults == [] && keywordInstances == map[] && resultsSummary == Summary(0, 0) && newPage == 0
    {
      searching := false;
      keywordResults := [];
      keywordInstances := map[];
      resultsSummary := Summary(0, 0);
      newPage := 0;
    }

    /** The rows, instance maps and counters, as a tally. */
    function State(): Tally
      reads this
    {
      Tally(Some(keywordResults), keywordInstances, resultsSummary)
    }

    /**
      `if file_results:` the rows extend `keyword_results` and the counters; the file's instance
      lists are stored under its name either way.
     */
    method AddFileResults(name: string, rows: seq<Row>, instances: PageInstances)
      modifies this
      ensures State() == Record(old(State()), Searched(name, rows, instances))
      ensures searching == old(searching) && newPage == old(newPage)
    {
      keywordInstances := keywordInstances[name := instances];
      if rows != [] {
        resultsSummary := Summary(resultsSummary.keywords + |rows|, resultsSummary.documents + 1);
        keywordResults := keywordResults + rows;
      } else {
        assert keywordResults + rows == keywordResults;
      }
    }

    /**
      `file = fitz.open(filepath)`, the word lists and the page loop for a file named like a PDF:
      what the file contributes and the exception that escapes, if any.
     */
    static method OpenAndScan(filepath: string, q: Query) returns (c: Contribution, error: Option<PyError>)
      requires Suffix(Basename(filepath)) == ".pdf"
      ensures (c, error) == FileOutcome(filepath, q)
    {
      var name := Basename(filepath);
      var pdf := q.fitzOpen(filepath);
      if pdf.None? {
        return Entered(filepath), Some(OpenError);
      }
      var job := Job(name, pdf.value, q.keywords, q.wordPad);
      var words := PageWords(pdf.value);
      var found, instances := ScanFile(job, words);
      if found.Raise? {
        return Searched(name, [], instances), Some(found.error);
      }
      c, error := Searched(name, found.value, instances), None;
    }

    /**
      File `i` of the loop: its empty instance entry, the cancellation check (`stillSearching(i)`
      is what the flag reads there), the suffix check, and the file's search and accumulation.
     */
    method VisitAt(filepaths: seq<string>, q: Query, stillSearching: nat -> bool, i: nat) returns (go: bool, error: Option<PyError>)
      requires i < |filepaths|
      modifies this
      ensures go == stillSearching(i) == searching
      ensures !go ==> State() == Record(old(State()), Entered(filepaths[i])) && error.None?
      ensures go ==> State() == Record(old(State()), FileOutcome(filepaths[i], q).0) && error == FileOutcome(filepaths[i], q).1
      ensures newPage == old(newPage)
    {
      ghost var before := State();
      var name := Basename(filepaths[i]);
      keywordInstances := keywordInstances[name := map[]];
      RecordEntered(before, filepaths[i]);
      searching := stillSearching(i);
      go, error := searching, None;
      if !go {
        return;
      }
      if Suffix(name) != ".pdf" {
        return;
      }
      var c;
      c, error := OpenAndScan(filepaths[i], q);
      AddFileResults(c.key, c.rows, c.instances);
      RecordOverwrites(before, c);
    }

    /**
      `loop_files_search_keywords(filepaths, keywords)`: `keyword_instances` starts empty, the
      files are visited in order until the first check of the flag that reads false, and an
      exception of a file ends the loop and escapes, with the flag still set. Otherwise the flag
      is cleared. The rows and counters go on from what they were.
     */
    method LoopFilesSearchKeywords(filepaths: seq<string>, q: Query, stillSearching: nat -> bool) returns (error: Option<PyError>)
      modifies this
      ensures LoopEnd(filepaths, q, stillSearching, Tally(Some(old(keywordResults)), map[], old(resultsSummary)), State(), error, searching)
      ensures newPage == old(newPage)
    {
      ghost var t0 := Tally(Some(keywordResults), map[], resultsSummary);
      keywordInstances := map[];
      error := None;
      var i := 0;
      while i < |filepaths|
        invariant 0 <= i <= |filepaths|
        invariant error.None?
        invariant forall j :: 0 <= j < i ==> stillSearching(j)
        invariant forall j :: 0 <= j < i ==> Passes(filepaths, q)(j)
        invariant State() == Fold(t0, Contributions(filepaths, q, i))
        invariant newPage == old(newPage)
      {
        var go;
        go, error := VisitAt(filepaths, q, stillSearching, i);
        if !go {
          FirstFalseUnique(|filepaths|, stillSearching, i);
          FirstFalseUnique(i, Passes(filepaths, q), i);
          searching := false;
          return;
        }
        if error.Some? {
          FirstFalsePast(|filepaths|, stillSearching, i);
          FirstFalseUnique(FirstFalse(|filepaths|, stillSearching), Passes(filepaths, q), i);
          return;
        }
        HoldsThrough(stillSearching, i);
        HoldsThrough(Passes(filepaths, q), i);
        FoldStep(t0, filepaths, q, i);
        i := i + 1;
      }
      FirstFalseUnique(|filepaths|, stillSearching, i);
      FirstFalseUnique(i, Passes(filepaths, q), i);
      searching := false;
    }

    /**
      The search button. While a search runs it cancels it by clearing the flag. Otherwise, for a
      folder that exists, it sets the flag, empties the rows and zeroes the counters, and runs the
      file loop over `filepaths` (the folder's sorted entries) with the keywords of the keyword box.
     */
    method SearchEvent(keywordsText: string, folderIsDir: bool, filepaths: seq<string>, wordPad: int,
                       fitzOpen: string -> Option<Pdf>, stillSearching: nat -> bool) returns (error: Option<PyError>)
      modifies this
      ensures !folderIsDir ==> error.None? && State() == old(State()) && searching == old(searching)
      ensures folderIsDir && old(searching) ==> error.None? && State() == old(State()) && !searching
      ensures folderIsDir && !old(searching) ==>
        LoopEnd(filepaths, Query(ParseKeywords(keywordsText), wordPad, fitzOpen), stillSearching, Tally(Some([]), map[], Summary(0, 0)), State(), error, searching)
      ensures newPage == old(newPage)
    {
      error := None;
      var keywords := ParseKeywords(keywordsText);
      if !folderIsDir {
        return;
      }
      if searching {
        searching := false;
        return;
      }
      searching := true;
      keywordResults := [];
      resultsSummary := Summary(0, 0);
      error := LoopFilesSearchKeywords(filepaths, Query(keywords, wordPad, fitzOpen), stillSearching);
    }

    /**
      The clamp of lines 392-396 for an open document of `totalPages` pages, and whether the viewer
      must redraw. `updateBefore` is `update_page` as the event left it (True when a table row
      opened a new file); the clamp only ever sets it, when the clamped page differs from the open
      one (None when no page is shown yet).
     */
    method ClampNewPage(totalPages: int, openPage: Option<int>, updateBefore: bool) returns (updatePage: bool)
      modifies this
      ensures newPage == ClampPage(old(newPage), totalPages)
      ensures updatePage <==> updateBefore || openPage != Some(newPage)
      ensures State() == old(State()) && searching == old(searching)
    {
      if newPage > totalPages - 1 {
        newPage := totalPages - 1;
      } else if newPage < 0 {
        newPage := 0;
      }
      updatePage := updateBefore;
      if openPage.None? || newPage != openPage.value {
        updatePage := true;
      }
    }
  }
}

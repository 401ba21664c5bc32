/**
  What the batch loops of the two `DocumentSearcher` classes accumulate over a list of files:
  the result rows, the instance map keyed per file, and the summary counters.
 */
module Tally {
  import opened Wrappers
  import opened Results

  /** What one file adds: nothing, or its rows and its instance map under the key `key`. */
  datatype Contribution = Skipped | Searched(key: string, rows: seq<Row>, instances: PageInstances)

  /** `keyword_results`, `keyword_instances` and `results_summary`, as a loop leaves them. */
  datatype Tally = Tally(results: Option<seq<Row>>, instances: map<string, PageInstances>, summary: Summary)

  /**
    The accumulation step for one file: the rows become `keyword_results` when it is None and
    extend it otherwise, the instance map is stored under the file's key, and a file with rows
    adds their number to `keywords` and one to `documents`.
   */
  function Record(t: Tally, c: Contribution): Tally {
    match c
    case Skipped => t
    case Searched(key, rows, inst) =>
      var results := if t.results.None? then rows else t.results.value + rows;
      var summary := if rows != [] then Summary(t.summary.keywords + |rows|, t.summary.documents + 1) else t.summary;
      Tally(Some(results), t.instances[key := inst], summary)
  }

  /** The tally after the contributions `cs`, in order, from `keyword_results == start`, no instances and zero counters. */
  function Accumulate(start: Option<seq<Row>>, cs: seq<Contribution>): Tally
    decreases |cs|
  {
    if cs == [] then Tally(start, map[], Summary(0, 0))
    else Record(Accumulate(start, cs[..|cs| - 1]), cs[|cs| - 1])
  }

  /** The tally `t` after the contributions `cs`, in order. */
  function Fold(t: Tally, cs: seq<Contribution>): Tally
    decreases |cs|
  {
    if cs == [] then t else Record(Fold(t, cs[..|cs| - 1]), cs[|cs| - 1])
  }

  /** Accumulating is folding from `keyword_results == start`, no instances and zero counters. */
  lemma {:induction false} AccumulateFold(start: Option<seq<Row>>, cs: seq<Contribution>)
    ensures Accumulate(start, cs) == Fold(Tally(start, map[], Summary(0, 0)), cs)
    decreases |cs|
  {
    if cs != [] {
      AccumulateFold(start, cs[..|cs| - 1]);
    }
  }

  /** The rows a contribution adds. */
  function RowsOf(c: Contribution): seq<Row> {
    if c.Searched? then c.rows else []
  }

  /** The concatenation of the lists `xss`, in order. */
  function Flatten(xss: seq<seq<Row>>): seq<Row>
    decreases |xss|
  {
    if xss == [] then [] else Flatten(xss[..|xss| - 1]) + xss[|xss| - 1]
  }

  /** Every contribution's rows, in order. */
  function RowLists(cs: seq<Contribution>): (r: seq<seq<Row>>)
    ensures |r| == |cs| && forall j :: 0 <= j < |cs| ==> r[j] == RowsOf(cs[j])
  {
    seq(|cs|, j requires 0 <= j < |cs| => RowsOf(cs[j]))
  }

  /** The indices of the contributions that add at least one row. */
  function Productive(cs: seq<Contribution>): set<nat> {
    set j: nat | j < |cs| && RowsOf(cs[j]) != []
  }

  /** Does `c` store an instance map under `key`? */
  predicate StoresKey(c: Contribution, key: string) {
    c.Searched? && c.key == key
  }

  lemma {:induction false} RowListsSnoc(cs: seq<Contribution>)
    requires cs != []
    ensures Flatten(RowLists(cs)) == Flatten(RowLists(cs[..|cs| - 1])) + RowsOf(cs[|cs| - 1])
  {
    var init := cs[..|cs| - 1];
    assert forall j :: 0 <= j < |init| ==> init[j] == cs[j];
    var xss := RowLists(cs);
    assert xss[..|xss| - 1] == RowLists(init);
  }

  /** The rows before the first file: none when `keyword_results` starts as None. */
  function StartRows(start: Option<seq<Row>>): seq<Row> {
    if start.None? then [] else start.value
  }

  /** One step on the rows: a searched file's rows are appended, to nothing when there were none yet. */
  lemma {:induction false} RecordResults(t: Tally, c: Contribution)
    ensures Record(t, c).results == if c.Skipped? then t.results else Some(StartRows(t.results) + c.rows)
  {
    if c.Searched? && t.results.None? {
      assert StartRows(t.results) + c.rows == c.rows;
    }
  }

  /** One step on the counters. */
  lemma {:induction false} RecordSummary(t: Tally, c: Contribution)
    ensures Record(t, c).summary.keywords == t.summary.keywords + |RowsOf(c)|
    ensures Record(t, c).summary.documents == t.summary.documents + if RowsOf(c) != [] then 1 else 0
  {
  }

  /** `keyword_results` stays None exactly when it started None and no file got as far as the accumulation step. */
  lemma {:induction false} AccumulateNone(start: Option<seq<Row>>, cs: seq<Contribution>)
    ensures Accumulate(start, cs).results.None? <==> start.None? && forall j :: 0 <= j < |cs| ==> cs[j].Skipped?
    decreases |cs|
  {
    if cs != [] {
      var init := cs[..|cs| - 1];
      AccumulateNone(start, init);
      assert forall j :: 0 <= j < |init| ==> init[j] == cs[j];
    }
  }

  /** One step on the rows, whether or not there were rows before. */
  lemma {:induction false} RecordRows(t: Tally, c: Contribution)
    ensures StartRows(Record(t, c).results) == StartRows(t.results) + RowsOf(c)
  {
    RecordResults(t, c);
    if c.Skipped? {
      assert StartRows(t.results) + [] == StartRows(t.results);
    }
  }

  /** The rows are the starting rows followed by every file's rows, in file order. */
  lemma {:induction false} AccumulateRows(start: Option<seq<Row>>, cs: seq<Contribution>)
    ensures StartRows(Accumulate(start, cs).results) == StartRows(start) + Flatten(RowLists(cs))
    decreases |cs|
  {
    if cs == [] {
      assert StartRows(start) + [] == StartRows(start);
    } else {
      var init, c := cs[..|cs| - 1], cs[|cs| - 1];
      var t := Accumulate(start, init);
      AccumulateRows(start, init);
      RowListsSnoc(cs);
      RecordRows(t, c);
      AppendAssoc(StartRows(start), Flatten(RowLists(init)), RowsOf(c));
    }
  }

  /** Concatenation is associative. */
  lemma AppendAssoc(a: seq<Row>, b: seq<Row>, c: seq<Row>)
    ensures a + (b + c) == (a + b) + c
  {
  }

  /**
    `results_summary['keywords']` is the number of rows added and `results_summary['documents']`
    the number of files that added at least one; so there are no documents exactly when there are no rows.
   */
  lemma {:induction false} AccumulateSummary(start: Option<seq<Row>>, cs: seq<Contribution>)
    ensures Accumulate(start, cs).summary.keywords == |Flatten(RowLists(cs))|
    ensures Accumulate(start, cs).summary.documents == |Productive(cs)|
    ensures Accumulate(start, cs).summary.documents <= Accumulate(start, cs).summary.keywords
    ensures Accumulate(start, cs).summary.documents == 0 <==> Accumulate(start, cs).summary.keywords == 0
    decreases |cs|
  {
    if cs == [] {
      assert Productive(cs) == {};
    } else {
      var init, c := cs[..|cs| - 1], cs[|cs| - 1];
      var t := Accumulate(start, init);
      AccumulateSummary(start, init);
      RowListsSnoc(cs);
      RecordSummary(t, c);
      ProductiveSnoc(cs);
    }
  }

  lemma {:induction false} ProductiveSnoc(cs: seq<Contribution>)
    requires cs != []
    ensures |Productive(cs)| == |Productive(cs[..|cs| - 1])| + if RowsOf(cs[|cs| - 1]) != [] then 1 else 0
  {
    var init := cs[..|cs| - 1];
    var last: nat := |cs| - 1;
    ProductiveSnocSet(cs);
    if RowsOf(cs[last]) != [] {
      assert last !in Productive(init);
    }
  }

  lemma {:induction false} ProductiveSnocSet(cs: seq<Contribution>)
    requires cs != []
    ensures Productive(cs) == Productive(cs[..|cs| - 1]) + if RowsOf(cs[|cs| - 1]) != [] then {|cs| - 1} else {}
  {
    var init := cs[..|cs| - 1];
    assert forall j :: 0 <= j < |init| ==> init[j] == cs[j];
  }

  /**
    A key is in `keyword_instances` exactly when some file stored a map under it, and then it holds
    the map of the last such file: a later file with the same key overwrites an earlier one.
   */
  lemma {:induction false} AccumulateInstances(start: Option<seq<Row>>, cs: seq<Contribution>, key: string)
    ensures key in Accumulate(start, cs).instances <==> exists j :: 0 <= j < |cs| && StoresKey(cs[j], key)
    ensures forall j :: 0 <= j < |cs| && StoresKey(cs[j], key) && (forall l :: j < l < |cs| ==> !StoresKey(cs[l], key)) ==>
      key in Accumulate(start, cs).instances && Accumulate(start, cs).instances[key] == cs[j].instances
    decreases |cs|
  {
    if cs != [] {
      var init, c := cs[..|cs| - 1], cs[|cs| - 1];
      AccumulateInstances(start, init, key);
      assert forall j :: 0 <= j < |init| ==> init[j] == cs[j];
      if StoresKey(c, key) {
        assert StoresKey(cs[|cs| - 1], key);
      }
    }
  }
}

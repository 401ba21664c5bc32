/** Optional values and Python-style exceptions as values. */
module Wrappers {

  datatype Option<+T> = None | Some(value: T)

  /** The exceptions the modelled code can raise; each name is Python's. */
  datatype PyError =
    | KeyError     // a dictionary lookup of a missing key
    | TypeError    // arithmetic on, or indexing with, None
    | IndexError   // indexing an empty or too short list
    | ValueError   // int() of a string that is not a number
    | NameError    // use of an undefined variable
    | OpenError    // fitz.open could not open the file

  /** The outcome of Python code that may raise. */
  datatype Result<+T> = Ok(value: T) | Raise(error: PyError) {

    predicate IsFailure() {
      Raise?
    }

    function PropagateFailure<U>(): Result<U>
      requires Raise?
    {
      Raise(error)
    }

    function Extract(): T
      requires Ok?
    {
      value
    }
  }

  /**
    The values of a sequence of results, in order, or the failure of the first one that failed:
    what a loop that appends each value and lets an exception escape produces.
   */
  function AllOk<T>(rs: seq<Result<T>>): Result<seq<T>>
    decreases |rs|
  {
    if rs == [] then Ok([])
    else
      var init :- AllOk(rs[..|rs| - 1]);
      var last :- rs[|rs| - 1];
      Ok(init + [last])
  }

  /** The fold succeeds exactly when every result does, and then yields their values pointwise. */
  lemma {:induction false} AllOkValues<T>(rs: seq<Result<T>>)
    ensures AllOk(rs).Ok? <==> forall i :: 0 <= i < |rs| ==> rs[i].Ok?
    ensures AllOk(rs).Ok? ==> |AllOk(rs).value| == |rs| && forall i :: 0 <= i < |rs| ==> AllOk(rs).value[i] == rs[i].value
    decreases |rs|
  {
    if rs != [] {
      var init := rs[..|rs| - 1];
      AllOkValues(init);
      assert forall i :: 0 <= i < |init| ==> init[i] == rs[i];
    }
  }

  /** A failed fold reports the failure of the first result that failed. */
  lemma {:induction false} AllOkFirstFailure<T>(rs: seq<Result<T>>)
    requires AllOk(rs).Raise?
    ensures exists i :: 0 <= i < |rs| && rs[i] == Raise(AllOk(rs).error) && forall j :: 0 <= j < i ==> rs[j].Ok?
    decreases |rs|
  {
    var init := rs[..|rs| - 1];
    assert forall i :: 0 <= i < |init| ==> init[i] == rs[i];
    if AllOk(init).Raise? {
      AllOkFirstFailure(init);
      var i :| 0 <= i < |init| && init[i] == Raise(AllOk(init).error) && forall j :: 0 <= j < i ==> init[j].Ok?;
      assert rs[i] == Raise(AllOk(rs).error);
    } else {
      AllOkValues(init);
      assert rs[|rs| - 1] == Raise(AllOk(rs).error);
    }
  }

  /** Once a prefix has failed, further results change nothing. */
  lemma {:induction false} AllOkFailureSticks<T>(rs: seq<Result<T>>, more: seq<Result<T>>)
    requires AllOk(rs).Raise?
    ensures AllOk(rs + more) == AllOk(rs)
    decreases |more|
  {
    if more == [] {
      assert rs + more == rs;
    } else {
      var m' := more[..|more| - 1];
      assert (rs + more)[..|rs + more| - 1] == rs + m';
      AllOkFailureSticks(rs, m');
    }
  }

  /** Appending one result extends the fold by it. */
  lemma {:induction false} AllOkSnoc<T>(rs: seq<Result<T>>, r: Result<T>)
    ensures AllOk(rs + [r]) == (var init :- AllOk(rs); var last :- r; Ok(init + [last]))
  {
    assert (rs + [r])[..|rs|] == rs;
  }

  /** The fold of two runs is the fold of the first, then that of the second. */
  lemma {:induction false} AllOkAppend<T>(rs: seq<Result<T>>, more: seq<Result<T>>)
    ensures AllOk(rs + more) == (var a :- AllOk(rs); var b :- AllOk(more); Ok(a + b))
    decreases |more|
  {
    if more == [] {
      assert rs + more == rs;
      if AllOk(rs).Ok? {
        assert AllOk(rs).value + [] == AllOk(rs).value;
      }
    } else {
      var m' := more[..|more| - 1];
      assert (rs + more)[..|rs + more| - 1] == rs + m';
      assert (rs + more)[|rs + more| - 1] == more[|more| - 1];
      AllOkAppend(rs, m');
      if AllOk(rs).Ok? && AllOk(m').Ok? && more[|more| - 1].Ok? {
        var a, b, c := AllOk(rs).value, AllOk(m').value, more[|more| - 1].value;
        assert a + b + [c] == a + (b + [c]);
      }
    }
  }

  /** The fold of one result: its value as a one-element list, or its exception. */
  lemma {:induction false} AllOkSingle<T>(r: Result<T>)
    ensures AllOk([r]) == (var v :- r; Ok([v]))
  {
    AllOkSnoc([], r);
    assert [] + [r] == [r];
    if r.Ok? {
      assert [] + [r.value] == [r.value];
    }
  }
}

/** The first index at which a condition fails: where a batch loop stops. */
module Scan {

  /**
    The first `i` in `0 .. n - 1` with `!ok(i)`, or `n` when there is none: the number of files a
    loop goes through before it stops at a failed check. What it means is `FirstFalseFacts`.
   */
  function FirstFalse(n: nat, ok: nat -> bool): (k: nat)
    ensures k <= n
  {
    FirstFalseFrom(0, n, ok)
  }

  /** `FirstFalse` among `i .. n - 1`. */
  function FirstFalseFrom(i: nat, n: nat, ok: nat -> bool): (k: nat)
    requires i <= n
    ensures i <= k <= n
    decreases n - i
  {
    if i == n then n
    else if !ok(i) then i
    else FirstFalseFrom(i + 1, n, ok)
  }

  lemma {:induction false} FirstFalseFromFacts(i: nat, n: nat, ok: nat -> bool)
    requires i <= n
    ensures forall j :: i <= j < FirstFalseFrom(i, n, ok) ==> ok(j)
    ensures FirstFalseFrom(i, n, ok) < n ==> !ok(FirstFalseFrom(i, n, ok))
    decreases n - i
  {
    if i < n && ok(i) {
      FirstFalseFromFacts(i + 1, n, ok);
    }
  }

  /** The condition holds before `FirstFalse` and fails at it, unless it is `n`. */
  lemma {:induction false} FirstFalseFacts(n: nat, ok: nat -> bool)
    ensures forall i :: 0 <= i < FirstFalse(n, ok) ==> ok(i)
    ensures FirstFalse(n, ok) < n ==> !ok(FirstFalse(n, ok))
  {
    FirstFalseFromFacts(0, n, ok);
  }

  lemma {:induction false} FirstFalseFromUnique(i: nat, n: nat, ok: nat -> bool, k: nat)
    requires i <= k <= n
    requires forall j :: i <= j < k ==> ok(j)
    requires k < n ==> !ok(k)
    ensures FirstFalseFrom(i, n, ok) == k
    decreases k - i
  {
    if i < k {
      FirstFalseFromUnique(i + 1, n, ok, k);
    }
  }

  /** Any index before which `ok` holds throughout and at which it fails (or which is `n`) is `FirstFalse`. */
  lemma {:induction false} FirstFalseUnique(n: nat, ok: nat -> bool, k: nat)
    requires k <= n
    requires forall i :: 0 <= i < k ==> ok(i)
    requires k < n ==> !ok(k)
    ensures FirstFalse(n, ok) == k
  {
    FirstFalseFromUnique(0, n, ok, k);
  }

  /** A condition that holds up to and including `i` first fails after `i`. */
  lemma {:induction false} FirstFalsePast(n: nat, ok: nat -> bool, i: nat)
    requires i < n
    requires forall j :: 0 <= j < i ==> ok(j)
    requires ok(i)
    ensures i < FirstFalse(n, ok)
  {
    FirstFalseFacts(n, ok);
  }

  /** A condition that holds before `i` and at `i` holds before `i + 1`. */
  lemma {:induction false} HoldsThrough(ok: nat -> bool, i: nat)
    requires forall j :: 0 <= j < i ==> ok(j)
    requires ok(i)
    ensures forall j :: 0 <= j < i + 1 ==> ok(j)
  {
  }
}

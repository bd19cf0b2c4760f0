/** Locating the first offending element of a sequence: the point at which a Python `for` loop
    whose body raises on a bad element stops. */
module Scan {
  import opened Wrappers

  /** The least index at or after `from` whose element satisfies `p`, or `|xs|` when none does. */
  function FirstWhere<T>(xs: seq<T>, p: T -> bool, from: nat): (k: nat)
    requires from <= |xs|
    ensures from <= k <= |xs|
    ensures forall j | from <= j < k :: !p(xs[j])
    ensures k < |xs| ==> p(xs[k])
    decreases |xs| - from
  {
    if from == |xs| || p(xs[from]) then from else FirstWhere(xs, p, from + 1)
  }

  /** No element satisfies `p` exactly when the scan runs off the end. */
  lemma FirstWhereNone<T>(xs: seq<T>, p: T -> bool)
    ensures FirstWhere(xs, p, 0) == |xs| <==> forall j | 0 <= j < |xs| :: !p(xs[j])
  {
  }

  /** A clean prefix followed by a clean element is a longer clean prefix. */
  lemma NoneBeforeNext<T>(xs: seq<T>, p: T -> bool, i: nat)
    requires i < |xs| && !p(xs[i])
    requires forall j | 0 <= j < i :: !p(xs[j])
    ensures forall j | 0 <= j < i + 1 :: !p(xs[j])
  {
  }

  /** A `for` loop whose body reads each element in turn, either raising or assigning the same
      variable: from index `i` on, with `last` assigned so far, the error of the first element
      whose reading fails, else the reading of the final element. */
  function ReadEach<T, R, E>(xs: seq<T>, i: nat, last: R, read: T -> Result<R, E>): Result<R, E>
    requires i <= |xs|
    decreases |xs| - i
  {
    if i == |xs| then Success(last)
    else if read(xs[i]).Failure? then Failure(read(xs[i]).error)
    else ReadEach(xs, i + 1, read(xs[i]).value, read)
  }

  /** When every remaining element reads through, the loop ends with the reading of the final
      element, or with what was assigned when none is left. */
  lemma {:induction false} ReadEachAccepted<T, R, E>(xs: seq<T>, i: nat, last: R, read: T -> Result<R, E>)
    requires i <= |xs|
    requires forall j | i <= j < |xs| :: read(xs[j]).Success?
    ensures i == |xs| ==> ReadEach(xs, i, last, read) == Success(last)
    ensures i < |xs| ==> ReadEach(xs, i, last, read) == read(xs[|xs| - 1])
    decreases |xs| - i
  {
    if i < |xs| {
      ReadEachAccepted(xs, i + 1, read(xs[i]).value, read);
    }
  }

  /** The loop gets through exactly when every remaining element reads through. */
  lemma {:induction false} ReadEachSucceedsIff<T, R, E>(xs: seq<T>, i: nat, last: R, read: T -> Result<R, E>)
    requires i <= |xs|
    ensures ReadEach(xs, i, last, read).Success? <==> forall j | i <= j < |xs| :: read(xs[j]).Success?
    decreases |xs| - i
  {
    if i < |xs| && read(xs[i]).Success? {
      ReadEachSucceedsIff(xs, i + 1, read(xs[i]).value, read);
    }
  }

  /** A failed loop raises the error of the first element at or after `i` whose reading fails,
      `p` being the test for such an element. */
  lemma {:induction false} ReadEachFailure<T, R, E>(xs: seq<T>, i: nat, last: R, read: T -> Result<R, E>, p: T -> bool)
    requires i <= |xs| && ReadEach(xs, i, last, read).Failure?
    requires forall j | i <= j < |xs| :: p(xs[j]) <==> read(xs[j]).Failure?
    ensures var k := FirstWhere(xs, p, i);
      k < |xs| && read(xs[k]) == Failure(ReadEach(xs, i, last, read).error)
    decreases |xs| - i
  {
    if read(xs[i]).Success? {
      ReadEachFailure(xs, i + 1, read(xs[i]).value, read, p);
    }
  }

  /** The first fault at or after `from` among the faults `fault(0)`, ..., `fault(n - 1)` of a
      loop over `n` elements that stops at the first element with a fault. */
  function FirstFault<F>(n: nat, from: nat, fault: nat -> Option<F>): Option<F>
    requires from <= n
    decreases n - from
  {
    if from == n then None
    else if fault(from).Some? then fault(from)
    else FirstFault(n, from + 1, fault)
  }

  /** The loop finds no fault exactly when no element has one; a fault it finds is that of an
      element with none before it. */
  lemma {:induction false} FirstFaultIsFirst<F>(n: nat, from: nat, fault: nat -> Option<F>)
    requires from <= n
    ensures FirstFault(n, from, fault).None? <==> forall i | from <= i < n :: fault(i).None?
    ensures FirstFault(n, from, fault).Some? ==>
              exists i | from <= i < n ::
                && fault(i) == FirstFault(n, from, fault)
                && forall h | from <= h < i :: fault(h).None?
    decreases n - from
  {
    if from < n {
      FirstFaultIsFirst(n, from + 1, fault);
    }
  }
}

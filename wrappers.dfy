/** Option and Result, used wherever the Python code returns None or raises. */
module Wrappers {

  datatype Option<+T> = None | Some(value: T)

  /** `Err` stands for a Python exception that propagates out of the call. */
  datatype Result<+T, +E> = Ok(value: T) | Err(error: E)

  /** How many of the first `n` outcomes of a loop come before the first exception:
      the loop runs that many iterations to the end. */
  function Reached<T, E>(vs: seq<Result<T, E>>, n: nat): (k: nat)
    requires n <= |vs|
    ensures k <= n
    ensures forall j :: 0 <= j < k ==> vs[j].Ok?
    ensures k < n ==> vs[k].Err?
  {
    if n == 0 then 0
    else if Reached(vs, n - 1) < n - 1 then Reached(vs, n - 1)
    else if vs[n - 1].Err? then n - 1
    else n
  }

  /** The first exception is the one the loop stops at, however far it is run. */
  lemma {:induction false} ReachedStops<T, E>(vs: seq<Result<T, E>>, i: nat, n: nat)
    requires i < n <= |vs| && vs[i].Err?
    requires forall j :: 0 <= j < i ==> vs[j].Ok?
    ensures Reached(vs, n) == i
  {
    if n - 1 > i {
      ReachedStops(vs, i, n - 1);
    }
  }
}

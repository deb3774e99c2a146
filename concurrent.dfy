/**
 * ConcurrentUtils.parallelMap, by its observable contract: every element is
 * mapped, the outputs keep the input order, and the call fails as soon as
 * one element fails. The thread pool is not modelled; the map is sequential.
 */
module Concurrent {
  import opened Wrappers
  import opened Exceptions

  /** The index of the first element whose mapping fails, if there is one. */
  ghost predicate FirstFailure<T, R>(input: seq<T>, mapper: T -> Result<R, Throwable>, k: int) {
    && 0 <= k < |input|
    && mapper(input[k]).Failure?
    && forall j :: 0 <= j < k ==> mapper(input[j]).Success?
  }

  /**
   * parallelMap: the results in input order, or the failure of the first
   * failing element as the joined future reports it (a CompletionException
   * whose cause is the mapper's exception).
   */
  function ParallelMap<T, R>(input: seq<T>, mapper: T -> Result<R, Throwable>): (r: Result<seq<R>, Throwable>)
    ensures r.Success? <==> forall i :: 0 <= i < |input| ==> mapper(input[i]).Success?
    ensures r.Success? ==> |r.value| == |input|
    ensures r.Success? ==> forall i :: 0 <= i < |input| ==> r.value[i] == mapper(input[i]).value
    ensures r.Failure? ==> exists k :: FirstFailure(input, mapper, k) && r.error == AsCompletion(mapper(input[k]).error)
    decreases |input|
  {
    if |input| == 0 then Success([])
    else
      match mapper(input[0])
      case Failure(e) =>
        assert FirstFailure(input, mapper, 0);
        Failure(AsCompletion(e))
      case Success(v) =>
        var rest := ParallelMap(input[1..], mapper);
        match rest
        case Failure(e) =>
          FailureShifts(input, mapper, e);
          Failure(e)
        case Success(vs) =>
          SuccessShifts(input, mapper, v, vs);
          Success([v] + vs)
  }

  /** A first failure in the tail, after a head that succeeds, is the first failure of the whole. */
  lemma FailureShifts<T, R>(input: seq<T>, mapper: T -> Result<R, Throwable>, e: Throwable)
    requires |input| > 0 && mapper(input[0]).Success?
    requires exists k :: FirstFailure(input[1..], mapper, k) && e == AsCompletion(mapper(input[1..][k]).error)
    ensures exists k :: FirstFailure(input, mapper, k) && e == AsCompletion(mapper(input[k]).error)
  {
    var k :| FirstFailure(input[1..], mapper, k) && e == AsCompletion(mapper(input[1..][k]).error);
    assert forall j :: 1 <= j <= k + 1 ==> input[j] == input[1..][j - 1];
    assert FirstFailure(input, mapper, k + 1);
  }

  /** A head that succeeds with `v` and a tail mapped to `vs` map the whole to `[v] + vs`. */
  lemma SuccessShifts<T, R>(input: seq<T>, mapper: T -> Result<R, Throwable>, v: R, vs: seq<R>)
    requires |input| > 0 && mapper(input[0]) == Success(v)
    requires |vs| == |input| - 1
    requires forall i :: 0 <= i < |input| - 1 ==> mapper(input[1..][i]).Success? && vs[i] == mapper(input[1..][i]).value
    ensures forall i :: 0 <= i < |input| ==> mapper(input[i]).Success? && ([v] + vs)[i] == mapper(input[i]).value
  {
    assert forall i :: 1 <= i < |input| ==> input[i] == input[1..][i - 1];
  }

  /** There is at most one first failure, so the reported failure is determined. */
  lemma FirstFailureUnique<T, R>(input: seq<T>, mapper: T -> Result<R, Throwable>, k: int, m: int)
    requires FirstFailure(input, mapper, k) && FirstFailure(input, mapper, m)
    ensures k == m
  {
  }

  /** The call fails with the first failing element's exception, wrapped as the joined future reports it. */
  lemma ParallelMapFailsAtFirst<T, R>(input: seq<T>, mapper: T -> Result<R, Throwable>, k: int)
    requires FirstFailure(input, mapper, k)
    ensures ParallelMap(input, mapper) == Failure(AsCompletion(mapper(input[k]).error))
  {
    var r := ParallelMap(input, mapper);
    var m :| FirstFailure(input, mapper, m) && r.error == AsCompletion(mapper(input[m]).error);
    FirstFailureUnique(input, mapper, k, m);
  }

  /** Mapping nothing gives nothing. */
  lemma ParallelMapEmpty<T, R>(mapper: T -> Result<R, Throwable>)
    ensures ParallelMap([], mapper) == Success([])
  {
  }
}

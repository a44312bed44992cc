/**
 * The sequential field refresher as values: the accessors named in the refresh list are
 * called in order, each successful one overwrites its cached field, and the first error
 * ends the refresh.
 */
module Refresh {

  import opened Wrappers

  /** The value every cached field holds until its accessor first succeeds. */
  const NotSetYet: string := "Not set yet..."

  /** The position of the first failing accessor, or |results| when every accessor succeeds. */
  function FirstFailure(results: seq<Option<string>>): (k: nat)
    ensures k <= |results|
    ensures forall j :: 0 <= j < k ==> results[j].Some?
    ensures k < |results| ==> results[k].None?
  {
    if results == [] || results[0].None? then 0 else 1 + FirstFailure(results[1..])
  }

  /**
   * The cache after the refresher has run from accessor `i` on, every earlier accessor having
   * succeeded: accessor `i` is called, and on success its field is overwritten and accessor
   * `i + 1` is called next; on error nothing further happens.
   */
  function RefreshFrom(cache: seq<string>, results: seq<Option<string>>, i: nat): (r: seq<string>)
    requires |cache| == |results| && i <= FirstFailure(results)
    ensures |r| == |cache|
    ensures forall j :: 0 <= j < i ==> r[j] == cache[j]
    ensures forall j :: i <= j < |r| ==> r[j] == if j < FirstFailure(results) then results[j].value else cache[j]
    decreases |results| - i
  {
    if i == |results| then cache
    else match results[i]
      case None => cache
      case Some(v) => RefreshFrom(cache[i := v], results, i + 1)
  }

  /**
   * The cache after a refresh that starts at the first accessor: exactly the fields before
   * the first failing accessor take their accessor's value; every other field keeps its old value.
   */
  function Refreshed(cache: seq<string>, results: seq<Option<string>>): (r: seq<string>)
    requires |cache| == |results|
    ensures |r| == |cache|
    ensures forall j :: 0 <= j < |r| ==>
      r[j] == if j < FirstFailure(results) then results[j].value else cache[j]
  {
    RefreshFrom(cache, results, 0)
  }

  /** A field changes only when its own accessor was called and succeeded with the new value. */
  lemma FieldChangesOnlyOnSuccess(cache: seq<string>, results: seq<Option<string>>, j: nat)
    requires |cache| == |results| && j < |cache|
    ensures Refreshed(cache, results)[j] != cache[j] ==> results[j] == Some(Refreshed(cache, results)[j])
    ensures results[j].None? ==> Refreshed(cache, results)[j] == cache[j]
  {
  }
}

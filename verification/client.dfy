/**
 * The client state shared by the Exchange, Custodian and EntityFactory bindings: the cached
 * read-only fields, the list of pending transactions, and the state of the confirmation pass
 * in progress. The three bindings differ only in their refresh list and their submission.
 *
 * A confirmation pass is asynchronous: it captures the list's length, then waits for one
 * receipt at a time. While it waits, a submission may append to the list. The pass is
 * therefore modelled as three steps that other methods may interleave with:
 * BeginPass, VisitNext (one receipt callback) and FinishPass (the reverse-order splice).
 */
module EntityClient {

  import opened Wrappers
  import opened Pending
  import opened Refresh

  /** The entries appended while the receipts of a pass were awaited, in submission order. */
  function Concat(arrivals: seq<seq<Entry>>): seq<Entry> {
    if arrivals == [] then [] else Concat(arrivals[..|arrivals| - 1]) + arrivals[|arrivals| - 1]
  }

  lemma ConcatExtend(arrivals: seq<seq<Entry>>, i: nat)
    requires i < |arrivals|
    ensures Concat(arrivals[..i + 1]) == Concat(arrivals[..i]) + arrivals[i]
  {
    assert arrivals[..i + 1][..i] == arrivals[..i];
  }

  class Client {
    /** The names of the read accessors the refresher calls, in order. */
    const globalMethods: seq<string>
    /** The cached field of each accessor, at the same position as its name. */
    var cache: seq<string>
    var currentTransactions: seq<Entry>

    /** Whether a confirmation pass is under way. */
    var passing: bool
    /** The position whose receipt the pass looks up next. */
    var passIndex: nat
    /** The length of the pending list when the pass began. */
    var passLength: nat
    /** The positions the pass has marked for removal so far. */
    var indexesToBeRemoved: seq<nat>

    ghost predicate Valid()
      reads this
    {
      && |globalMethods| > 0
      && |cache| == |globalMethods|
      && passIndex <= passLength <= |currentTransactions|
      && StrictlyIncreasing(indexesToBeRemoved)
      && (forall k :: 0 <= k < |indexesToBeRemoved| ==> indexesToBeRemoved[k] < passIndex)
      && (!passing ==> passLength == 0 && indexesToBeRemoved == [])
    }

    /** A fresh client: every field unset, nothing pending, no pass under way. */
    constructor (globalMethods: seq<string>)
      requires |globalMethods| > 0
      ensures Valid()
      ensures this.globalMethods == globalMethods
      ensures cache == seq(|globalMethods|, _ => NotSetYet)
      ensures currentTransactions == [] && !passing
    {
      this.globalMethods := globalMethods;
      cache := seq(|globalMethods|, _ => NotSetYet);
      currentTransactions := [];
      passing, passIndex, passLength, indexesToBeRemoved := false, 0, 0, [];
    }

    /** Append a submitted transaction at the end of the pending list; a pass under way is unaffected. */
    method NewTransactionHash(e: Entry)
      requires Valid()
      modifies this
      ensures Valid()
      ensures currentTransactions == old(currentTransactions) + [e]
      ensures cache == old(cache) && passing == old(passing) && passIndex == old(passIndex)
      ensures passLength == old(passLength) && indexesToBeRemoved == old(indexesToBeRemoved)
    {
      currentTransactions := currentTransactions + [e];
    }

    /** Append several submitted transactions, one after the other. */
    method NewTransactionHashes(es: seq<Entry>)
      requires Valid()
      modifies this
      ensures Valid()
      ensures currentTransactions == old(currentTransactions) + es
      ensures cache == old(cache) && passing == old(passing) && passIndex == old(passIndex)
      ensures passLength == old(passLength) && indexesToBeRemoved == old(indexesToBeRemoved)
    {
      for j := 0 to |es|
        invariant Valid()
        invariant currentTransactions == old(currentTransactions) + es[..j]
        invariant cache == old(cache) && passing == old(passing) && passIndex == old(passIndex)
        invariant passLength == old(passLength) && indexesToBeRemoved == old(indexesToBeRemoved)
      {
        NewTransactionHash(es[j]);
        assert es[..j + 1] == es[..j] + [es[j]];
      }
      assert es[..|es|] == es;
    }

    /** Start a pass over the positions below the current length, with nothing marked yet. */
    method BeginPass()
      requires Valid() && !passing
      modifies this
      ensures Valid() && passing
      ensures passIndex == 0 && passLength == |currentTransactions| && indexesToBeRemoved == []
      ensures currentTransactions == old(currentTransactions) && cache == old(cache)
    {
      passing, passIndex, passLength, indexesToBeRemoved := true, 0, |currentTransactions|, [];
    }

    /**
     * Handle the receipt of the entry at `passIndex`: look up its hash, report a failure or a
     * success, mark a success for removal and trigger a refresh for it, then move to the next position.
     */
    method VisitNext(outcome: Outcome) returns (lookup: string, report: Option<Report>, refresh: bool)
      requires Valid() && passing && passIndex < passLength
      modifies this
      ensures Valid() && passing
      ensures lookup == old(currentTransactions)[old(passIndex)].hash
      ensures report == ReportOf(old(currentTransactions)[old(passIndex)], outcome)
      ensures refresh == (outcome in Removable)
      ensures indexesToBeRemoved == old(indexesToBeRemoved) + (if refresh then [old(passIndex)] else [])
      ensures passIndex == old(passIndex) + 1 && passLength == old(passLength)
      ensures currentTransactions == old(currentTransactions) && cache == old(cache)
    {
      var e := currentTransactions[passIndex];
      lookup := e.hash;
      report, refresh := None, false;
      if outcome == Failed {
        report := Some(Report(false, e.fail, e.hash));
      } else if outcome == Succeeded {
        indexesToBeRemoved := indexesToBeRemoved + [passIndex];
        report := Some(Report(true, e.success, e.hash));
        refresh := true;
      }
      passIndex := passIndex + 1;
    }

    /**
     * End the pass: splice out the marked positions, last first. Exactly the marked entries
     * among those present when the pass began are removed, the rest keep their order, and
     * the entries appended during the pass stay behind them.
     */
    method FinishPass()
      requires Valid() && passing && passIndex == passLength
      modifies this
      ensures Valid() && !passing
      ensures currentTransactions ==
        KeepUnmarked(old(currentTransactions)[..old(passLength)], old(indexesToBeRemoved))
        + old(currentTransactions)[old(passLength)..]
      ensures cache == old(cache)
    {
      ghost var before := currentTransactions;
      var i := |indexesToBeRemoved|;
      assert indexesToBeRemoved[..i] == indexesToBeRemoved;
      while i > 0
        invariant 0 <= i <= |indexesToBeRemoved|
        invariant SpliceReverse(currentTransactions, indexesToBeRemoved[..i])
               == SpliceReverse(before, indexesToBeRemoved)
        invariant indexesToBeRemoved == old(indexesToBeRemoved) && passLength == old(passLength)
        invariant passIndex == old(passIndex) && cache == old(cache)
      {
        assert indexesToBeRemoved[..i][..i - 1] == indexesToBeRemoved[..i - 1];
        i := i - 1;
        currentTransactions := RemoveAt(currentTransactions, indexesToBeRemoved[i]);
      }
      assert indexesToBeRemoved[..0] == [];
      SpliceReverseRemovesMarked(before, indexesToBeRemoved);
      assert before == before[..passLength] + before[passLength..];
      KeepUnmarkedAppend(before[..passLength], before[passLength..], indexesToBeRemoved);
      passing, passIndex, passLength, indexesToBeRemoved := false, 0, 0, [];
    }

    /**
     * One whole confirmation pass. The receipt of position k has outcome `outcomes[k]`, and
     * `arrivals[k]` are submitted after its callback, while the next receipt is awaited. Every position present at the
     * start is looked up once, in increasing order; the reports and refresh triggers are those
     * of the outcomes; exactly the succeeded entries are removed; the arrivals stay pending.
     */
    method ProcessTransactionHash(outcomes: seq<Outcome>, arrivals: seq<seq<Entry>>)
      returns (lookups: seq<string>, reports: seq<Report>, refreshes: seq<nat>)
      requires Valid() && !passing
      requires |outcomes| == |currentTransactions| && |arrivals| == |outcomes|
      modifies this
      ensures Valid() && !passing
      ensures |lookups| == |old(currentTransactions)|
      ensures forall k :: 0 <= k < |lookups| ==> lookups[k] == old(currentTransactions)[k].hash
      ensures reports == Reports(old(currentTransactions), outcomes)
      ensures refreshes == SucceededPositions(outcomes)
      ensures currentTransactions == Survivors(old(currentTransactions), outcomes) + Concat(arrivals)
      ensures cache == old(cache)
    {
      ghost var start := currentTransactions;
      BeginPass();
      lookups, reports, refreshes := [], [], [];
      var i := 0;
      while i < |outcomes|
        invariant 0 <= i <= |outcomes|
        invariant Valid() && passing && passIndex == i && passLength == |start|
        invariant currentTransactions == start + Concat(arrivals[..i])
        invariant indexesToBeRemoved == SucceededPositions(outcomes[..i]) == refreshes
        invariant |lookups| == i && forall k :: 0 <= k < i ==> lookups[k] == start[k].hash
        invariant reports == Reports(start[..i], outcomes[..i])
        invariant cache == old(cache)
      {
        var lookup, report, refresh := VisitNext(outcomes[i]);
        lookups := lookups + [lookup];
        if report.Some? {
          reports := reports + [report.value];
        }
        if refresh {
          refreshes := refreshes + [i];
        }
        ReportsExtend(start, outcomes, i);
        SucceededPositionsExtend(outcomes, i);
        NewTransactionHashes(arrivals[i]);
        ConcatExtend(arrivals, i);
        i := i + 1;
      }
      assert outcomes[..i] == outcomes && start[..i] == start && arrivals[..i] == arrivals;
      assert currentTransactions[..passLength] == start;
      FinishPass();
    }

    /**
     * One read accessor: on success its result overwrites the cached field at position `k`;
     * on error the field keeps its value and the error is passed on.
     */
    method RefreshField(k: nat, result: Option<string>) returns (ok: bool)
      requires Valid() && k < |cache|
      modifies this
      ensures Valid()
      ensures ok == result.Some?
      ensures cache == if ok then old(cache)[k := result.value] else old(cache)
      ensures currentTransactions == old(currentTransactions) && passing == old(passing)
      ensures passIndex == old(passIndex) && passLength == old(passLength)
      ensures indexesToBeRemoved == old(indexesToBeRemoved)
    {
      match result {
        case Some(v) =>
          cache := cache[k := v];
          ok := true;
        case None =>
          ok := false;
      }
    }

    /**
     * Refresh the cached fields: call the accessors in `globalMethods` order, where accessor k
     * yields `results[k]`, and stop at the first error. Only when every accessor succeeds is the
     * globals-changed callback invoked, exactly once.
     */
    method UpdateGlobals(results: seq<Option<string>>) returns (ok: bool, called: seq<string>, notified: nat)
      requires Valid() && |results| == |globalMethods|
      modifies this
      ensures Valid()
      ensures ok == (FirstFailure(results) == |results|)
      ensures called == globalMethods[..if ok then |results| else FirstFailure(results) + 1]
      ensures notified == if ok then 1 else 0
      ensures cache == Refreshed(old(cache), results)
      ensures currentTransactions == old(currentTransactions) && passing == old(passing)
      ensures passIndex == old(passIndex) && passLength == old(passLength)
      ensures indexesToBeRemoved == old(indexesToBeRemoved)
    {
      var index := 0;
      called := [];
      while index < |globalMethods|
        invariant 0 <= index <= |globalMethods|
        invariant Valid()
        invariant index <= FirstFailure(results)
        invariant RefreshFrom(cache, results, index) == RefreshFrom(old(cache), results, 0)
        invariant called == globalMethods[..index]
        invariant currentTransactions == old(currentTransactions) && passing == old(passing)
        invariant passIndex == old(passIndex) && passLength == old(passLength)
        invariant indexesToBeRemoved == old(indexesToBeRemoved)
      {
        called := called + [globalMethods[index]];
        var fieldOk := RefreshField(index, results[index]);
        if !fieldOk {
          assert FirstFailure(results) == index;
          ok, notified := false, 0;
          return;
        }
        index := index + 1;
      }
      assert FirstFailure(results) == |results|;
      ok, notified := true, 1;
    }
  }
}

/**
 * The pending-transaction list and what one confirmation pass does to it, as values:
 * which positions it reports, which it marks for removal, and what the reverse-order
 * splice leaves behind.
 */
module Pending {

  import opened Wrappers

  /** One submitted, not yet confirmed transaction with its fixed messages. */
  datatype Entry = Entry(hash: string, success: string, fail: string)

  /**
   * What the receipt lookup of one entry yields, as the pass sees it:
   * the lookup reported an error, the receipt is still null, the receipt
   * has status '0x0', or the receipt has any other status.
   */
  datatype Outcome = LookupError | NotYet | Failed | Succeeded

  /** The arguments of one call of the transaction-status callback. */
  datatype Report = Report(confirmed: bool, message: string, hash: string)

  /** The outcomes that lead to a status report. */
  const Settled: set<Outcome> := {Failed, Succeeded}

  /** The outcomes whose position is pushed onto the removal list. */
  const Removable: set<Outcome> := {Succeeded}

  predicate StrictlyIncreasing(p: seq<nat>) {
    forall a, b :: 0 <= a < b < |p| ==> p[a] < p[b]
  }

  /**
   * The positions of `o`, in increasing order, whose outcome is one of `kinds`:
   * what a pass that visits 0, 1, ..., |o| - 1 in turn pushes onto an accumulator.
   */
  function PositionsIn(o: seq<Outcome>, kinds: set<Outcome>): seq<nat> {
    if o == [] then []
    else PositionsIn(o[..|o| - 1], kinds) + (if o[|o| - 1] in kinds then [|o| - 1] else [])
  }

  /**
   * The positions collected are strictly increasing, each below |o|, and are exactly the
   * positions whose outcome is one of `kinds`.
   */
  lemma {:induction false} PositionsInSpec(o: seq<Outcome>, kinds: set<Outcome>)
    ensures StrictlyIncreasing(PositionsIn(o, kinds))
    ensures forall k :: 0 <= k < |PositionsIn(o, kinds)| ==> PositionsIn(o, kinds)[k] < |o|
    ensures forall j: nat {:trigger j in PositionsIn(o, kinds)} ::
      j in PositionsIn(o, kinds) <==> j < |o| && o[j] in kinds
  {
    if o != [] {
      var n := |o| - 1;
      PositionsInSpec(o[..n], kinds);
      var front := PositionsIn(o[..n], kinds);
      assert PositionsIn(o, kinds) == front + (if o[n] in kinds then [n] else []);
      forall j: nat | j < n
        ensures o[..n][j] == o[j]
      {
      }
    }
  }

  /** The indices a pass over outcomes `o` pushes onto `indexesToBeRemoved`. */
  function SucceededPositions(o: seq<Outcome>): seq<nat> {
    PositionsIn(o, Removable)
  }

  /** The status report a visited entry produces, if any. */
  function ReportOf(e: Entry, o: Outcome): Option<Report> {
    match o
    case Failed => Some(Report(false, e.fail, e.hash))
    case Succeeded => Some(Report(true, e.success, e.hash))
    case _ => None
  }

  /**
   * The reports of a pass over entries `s` with outcomes `o`, in the order they are made:
   * one per settled position, in increasing position order, and none for any other position.
   */
  function Reports(s: seq<Entry>, o: seq<Outcome>): seq<Report>
    requires |s| == |o|
  {
    if s == [] then []
    else
      var n := |s| - 1;
      Reports(s[..n], o[..n]) + match ReportOf(s[n], o[n]) case Some(x) => [x] case None => []
  }

  /**
   * A pass makes one report per settled position, in increasing position order, namely the
   * report of that position's entry and outcome.
   */
  lemma {:induction false} ReportsByPosition(s: seq<Entry>, o: seq<Outcome>)
    requires |s| == |o|
    ensures |Reports(s, o)| == |PositionsIn(o, Settled)|
    ensures forall k :: 0 <= k < |PositionsIn(o, Settled)| ==> PositionsIn(o, Settled)[k] < |o|
    ensures forall k :: 0 <= k < |Reports(s, o)| ==>
      Some(Reports(s, o)[k]) == ReportOf(s[PositionsIn(o, Settled)[k]], o[PositionsIn(o, Settled)[k]])
  {
    if s != [] {
      var n := |s| - 1;
      ReportsByPosition(s[..n], o[..n]);
      var p, front := PositionsIn(o, Settled), PositionsIn(o[..n], Settled);
      assert p == front + (if o[n] in Settled then [n] else []);
      PositionsInSpec(o[..n], Settled);
      forall k | 0 <= k < |front|
        ensures s[..n][front[k]] == s[front[k]] && o[..n][front[k]] == o[front[k]]
      {
      }
    }
  }

  /** Visiting one more position adds that position's report, if any, at the end. */
  lemma ReportsExtend(s: seq<Entry>, o: seq<Outcome>, i: nat)
    requires |s| == |o| && i < |s|
    ensures Reports(s[..i + 1], o[..i + 1]) ==
      Reports(s[..i], o[..i]) + match ReportOf(s[i], o[i]) case Some(x) => [x] case None => []
  {
    assert s[..i + 1][..i] == s[..i];
    assert o[..i + 1][..i] == o[..i];
  }

  /** Visiting one more position pushes it onto the removal list exactly when it succeeded. */
  lemma SucceededPositionsExtend(o: seq<Outcome>, i: nat)
    requires i < |o|
    ensures SucceededPositions(o[..i + 1]) ==
      SucceededPositions(o[..i]) + (if o[i] in Removable then [i] else [])
  {
    assert o[..i + 1][..i] == o[..i];
  }

  /** `s.splice(k, 1)`: drop the element at position `k`; an index past the end changes nothing. */
  function RemoveAt<T>(s: seq<T>, k: nat): (r: seq<T>)
    ensures k < |s| ==> |r| == |s| - 1
  {
    if k < |s| then s[..k] + s[k + 1..] else s
  }

  /**
   * What `splice(k, 1)` leaves: the entries before `k` in place, every entry after `k` one place
   * down, and the whole list when `k` is beyond its end.
   */
  lemma RemoveAtContents<T>(s: seq<T>, k: nat)
    ensures k < |s| ==> RemoveAt(s, k)[..k] == s[..k] && RemoveAt(s, k)[k..] == s[k + 1..]
    ensures k >= |s| ==> RemoveAt(s, k) == s
  {
  }

  /**
   * The removal loop: splice out `idx[|idx| - 1]`, then `idx[|idx| - 2]`, ..., then `idx[0]`.
   */
  function SpliceReverse<T>(s: seq<T>, idx: seq<nat>): seq<T>
    decreases |idx|
  {
    if idx == [] then s
    else SpliceReverse(RemoveAt(s, idx[|idx| - 1]), idx[..|idx| - 1])
  }

  /** The reference meaning of removal: the elements of `s` whose position is not listed in `m`, in their order. */
  function KeepUnmarked<T>(s: seq<T>, m: seq<nat>): seq<T> {
    if s == [] then []
    else
      var n := |s| - 1;
      KeepUnmarked(s[..n], m) + (if n in m then [] else [s[n]])
  }

  /** The entries still pending after a pass over `s` with outcomes `o`. */
  function Survivors(s: seq<Entry>, o: seq<Outcome>): seq<Entry> {
    KeepUnmarked(s, SucceededPositions(o))
  }

  /** Only the positions below |s| matter to KeepUnmarked. */
  lemma {:induction false} KeepUnmarkedLocal<T>(s: seq<T>, m1: seq<nat>, m2: seq<nat>)
    requires forall j: nat :: j < |s| ==> (j in m1 <==> j in m2)
    ensures KeepUnmarked(s, m1) == KeepUnmarked(s, m2)
  {
    if s != [] {
      KeepUnmarkedLocal(s[..|s| - 1], m1, m2);
    }
  }

  /** With nothing marked, nothing is removed. */
  lemma {:induction false} KeepUnmarkedNone<T>(s: seq<T>)
    ensures KeepUnmarked(s, []) == s
  {
    if s != [] {
      KeepUnmarkedNone(s[..|s| - 1]);
      assert s[..|s| - 1] + [s[|s| - 1]] == s;
    }
  }

  /** Elements after every marked position are all kept, in order: entries appended during a pass survive it. */
  lemma {:induction false} KeepUnmarkedAppend<T>(s: seq<T>, t: seq<T>, m: seq<nat>)
    requires forall k :: 0 <= k < |m| ==> m[k] < |s|
    ensures KeepUnmarked(s + t, m) == KeepUnmarked(s, m) + t
  {
    if t == [] {
      assert s + t == s;
    } else {
      var n := |t| - 1;
      assert (s + t)[..|s + t| - 1] == s + t[..n];
      assert |s| + n !in m;
      KeepUnmarkedAppend(s, t[..n], m);
      assert t[..n] + [t[n]] == t;
    }
  }

  /** Every unmarked element survives, and every survivor comes from an unmarked position. */
  lemma {:induction false} KeepUnmarkedMembers<T>(s: seq<T>, m: seq<nat>)
    ensures forall j :: 0 <= j < |s| && j !in m ==> s[j] in KeepUnmarked(s, m)
    ensures forall x :: x in KeepUnmarked(s, m) ==> exists j :: 0 <= j < |s| && j !in m && s[j] == x
  {
    if s != [] {
      var n := |s| - 1;
      KeepUnmarkedMembers(s[..n], m);
      forall x | x in KeepUnmarked(s, m)
        ensures exists j :: 0 <= j < |s| && j !in m && s[j] == x
      {
        if x in KeepUnmarked(s[..n], m) {
          var j :| 0 <= j < n && j !in m && s[..n][j] == x;
          assert s[j] == x;
        } else {
          assert n !in m && x == s[n];
        }
      }
    }
  }

  /**
   * The reverse-order splice over a strictly increasing list of in-range indices removes
   * exactly the listed positions, keeps everything else in order, and so shortens the
   * list by the number of indices.
   */
  lemma {:induction false} SpliceReverseRemovesMarked<T>(s: seq<T>, idx: seq<nat>)
    requires StrictlyIncreasing(idx)
    requires forall k :: 0 <= k < |idx| ==> idx[k] < |s|
    ensures SpliceReverse(s, idx) == KeepUnmarked(s, idx)
    ensures |SpliceReverse(s, idx)| == |s| - |idx|
    decreases |idx|
  {
    if idx == [] {
      KeepUnmarkedNone(s);
    } else {
      var n := |idx| - 1;
      var last, front := idx[n], idx[..n];
      var a, x, b := s[..last], s[last], s[last + 1..];
      assert s == (a + [x]) + b;
      assert RemoveAt(s, last) == a + b;
      // the indices before the last one are all still in range after splicing it out
      assert forall k :: 0 <= k < |front| ==> front[k] < last;
      SpliceReverseRemovesMarked(a + b, front);
      assert SpliceReverse(s, idx) == SpliceReverse(a + b, front);
      KeepUnmarkedDropLast(a, x, b, idx);
    }
  }

  /**
   * Marking the position of `x` as well as positions before it removes `x` and keeps
   * everything after it.
   */
  lemma KeepUnmarkedDropLast<T>(a: seq<T>, x: T, b: seq<T>, idx: seq<nat>)
    requires |idx| > 0 && idx[|idx| - 1] == |a|
    requires forall k :: 0 <= k < |idx| - 1 ==> idx[k] < |a|
    ensures KeepUnmarked(a + [x] + b, idx) == KeepUnmarked(a + b, idx[..|idx| - 1])
  {
    var front := idx[..|idx| - 1];
    assert forall k :: 0 <= k < |front| ==> front[k] < |a|;
    calc {
      KeepUnmarked(a + [x] + b, idx);
      { KeepUnmarkedAppend(a + [x], b, idx); }
      KeepUnmarked(a + [x], idx) + b;
      { KeepUnmarkedSnocMarked(a, x, idx); }
      KeepUnmarked(a, idx) + b;
      { KeepUnmarkedLocal(a, idx, front); }
      KeepUnmarked(a, front) + b;
      { KeepUnmarkedAppend(a, b, front); }
      KeepUnmarked(a + b, front);
    }
  }

  /** An element appended at a marked position is dropped. */
  lemma KeepUnmarkedSnocMarked<T>(a: seq<T>, x: T, m: seq<nat>)
    requires |a| in m
    ensures KeepUnmarked(a + [x], m) == KeepUnmarked(a, m)
  {
    assert (a + [x])[..|a|] == a;
  }

  /** An entry that did not succeed is still pending after the pass; a succeeded one is dropped from its position. */
  lemma SurvivorsSpec(s: seq<Entry>, o: seq<Outcome>)
    requires |s| == |o|
    ensures |Survivors(s, o)| == |s| - |SucceededPositions(o)|
    ensures forall j :: 0 <= j < |s| && o[j] != Succeeded ==> s[j] in Survivors(s, o)
    ensures forall x :: x in Survivors(s, o) ==> exists j :: 0 <= j < |s| && o[j] != Succeeded && s[j] == x
  {
    var p := SucceededPositions(o);
    PositionsInSpec(o, Removable);
    SpliceReverseRemovesMarked(s, p);
    KeepUnmarkedMembers(s, p);
  }

  /** A report appears for position j exactly when its outcome is settled. */
  lemma {:induction false} ReportedAt(s: seq<Entry>, o: seq<Outcome>, j: nat)
    requires |s| == |o| && j < |s| && o[j] in Settled
    ensures ReportOf(s[j], o[j]).value in Reports(s, o)
  {
    var p := PositionsIn(o, Settled);
    PositionsInSpec(o, Settled);
    ReportsByPosition(s, o);
    assert j in p;
    var k :| 0 <= k < |p| && p[k] == j;
    assert Some(Reports(s, o)[k]) == ReportOf(s[j], o[j]);
  }

  /**
   * A lookup that errors or returns null leaves its entry pending, unreported and
   * unmarked: no report of the pass belongs to its position, and no refresh is triggered for it.
   */
  lemma UnsettledIgnored(s: seq<Entry>, o: seq<Outcome>, j: nat)
    requires |s| == |o| && j < |s| && o[j] in {LookupError, NotYet}
    ensures s[j] in Survivors(s, o)
    ensures j !in PositionsIn(o, Settled)
    ensures j !in SucceededPositions(o)
  {
    SurvivorsSpec(s, o);
    PositionsInSpec(o, Settled);
    PositionsInSpec(o, Removable);
  }

  /**
   * A receipt with status '0x0' yields the report (false, fail, hash), triggers no refresh
   * and is NOT marked for removal: the entry is still pending after the pass.
   */
  lemma FailedReportedNotRemoved(s: seq<Entry>, o: seq<Outcome>, j: nat)
    requires |s| == |o| && j < |s| && o[j] == Failed
    ensures Report(false, s[j].fail, s[j].hash) in Reports(s, o)
    ensures j !in SucceededPositions(o)
    ensures s[j] in Survivors(s, o)
  {
    ReportedAt(s, o, j);
    SurvivorsSpec(s, o);
    PositionsInSpec(o, Removable);
  }

  /**
   * A successful receipt yields the report (true, success, hash), and its position is marked
   * exactly once, so it triggers exactly one refresh and its entry is spliced out.
   */
  lemma SucceededReportedRemoved(s: seq<Entry>, o: seq<Outcome>, j: nat)
    requires |s| == |o| && j < |s| && o[j] == Succeeded
    ensures Report(true, s[j].success, s[j].hash) in Reports(s, o)
    ensures exists k :: 0 <= k < |SucceededPositions(o)| && SucceededPositions(o)[k] == j
    ensures forall k1, k2 :: 0 <= k1 < k2 < |SucceededPositions(o)| ==>
      SucceededPositions(o)[k1] != j || SucceededPositions(o)[k2] != j
    ensures |Survivors(s, o)| < |s|
  {
    ReportedAt(s, o, j);
    SurvivorsSpec(s, o);
    PositionsInSpec(o, Removable);
    assert j in SucceededPositions(o);
  }

  /**
   * As written, a failed transaction is never removed: if its receipt still has status '0x0'
   * on the next pass, it is reported a second time and is still pending afterwards.
   */
  lemma FailedReportedEveryPass(s: seq<Entry>, o1: seq<Outcome>, o2: seq<Outcome>, i: nat)
    requires |s| == |o1| && i < |s| && o1[i] == Failed
    requires |o2| == |Survivors(s, o1)|
    requires forall j :: 0 <= j < |o2| && Survivors(s, o1)[j] == s[i] ==> o2[j] == Failed
    ensures Report(false, s[i].fail, s[i].hash) in Reports(s, o1)
    ensures Report(false, s[i].fail, s[i].hash) in Reports(Survivors(s, o1), o2)
    ensures s[i] in Survivors(Survivors(s, o1), o2)
  {
    FailedReportedNotRemoved(s, o1, i);
    var s1 := Survivors(s, o1);
    var j :| 0 <= j < |s1| && s1[j] == s[i];
    FailedReportedNotRemoved(s1, o2, j);
  }

  /**
   * Three pending entries, the first and the third confirmed in the same pass: both are
   * reported in order and removed, and the middle one is neither skipped nor reported.
   */
  lemma TwoConfirmedInOnePass(s: seq<Entry>, o: seq<Outcome>)
    requires |s| == 3 && o == [Succeeded, NotYet, Succeeded]
    ensures Reports(s, o) == [Report(true, s[0].success, s[0].hash), Report(true, s[2].success, s[2].hash)]
    ensures SucceededPositions(o) == [0, 2]
    ensures Survivors(s, o) == [s[1]]
  {
    assert s[..0] == [] && o[..0] == [] && s[..3] == s && o[..3] == o;
    assert Reports(s, o) == [Report(true, s[0].success, s[0].hash), Report(true, s[2].success, s[2].hash)] by {
      ReportsExtend(s, o, 0);
      ReportsExtend(s, o, 1);
      ReportsExtend(s, o, 2);
    }
    var m := SucceededPositions(o);
    assert m == [0, 2] by {
      SucceededPositionsExtend(o, 0);
      SucceededPositionsExtend(o, 1);
      SucceededPositionsExtend(o, 2);
    }
    assert SpliceReverse(s, m) == [s[1]] by {
      assert RemoveAt(s, 2) == s[..2] && RemoveAt(s[..2], 0) == [s[1]];
      assert m[..1] == [0] && [0][..0] == [];
      assert SpliceReverse(s, m) == SpliceReverse(s[..2], [0]) == SpliceReverse([s[1]], []);
    }
    PositionsInSpec(o, Removable);
    SpliceReverseRemovesMarked(s, m);
  }

  /**
   * Two pending entries, the first not yet mined and the second failed: only the second is
   * reported, and, as written, both are still pending after the pass.
   */
  lemma NotYetThenFailed(s: seq<Entry>, o: seq<Outcome>)
    requires |s| == 2 && o == [NotYet, Failed]
    ensures Reports(s, o) == [Report(false, s[1].fail, s[1].hash)]
    ensures Survivors(s, o) == s
  {
    assert s[..0] == [] && o[..0] == [] && s[..2] == s && o[..2] == o;
    ReportsExtend(s, o, 0);
    ReportsExtend(s, o, 1);
    SucceededPositionsExtend(o, 0);
    SucceededPositionsExtend(o, 1);
    assert SucceededPositions(o) == [];
    KeepUnmarkedNone(s);
  }
}

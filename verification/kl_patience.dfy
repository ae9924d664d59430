/**
 * The Kernighan-Lin variant with early termination: each pass scores its
 * exchanges with the D values of the pass start (never patched), commits the best
 * prefix when its cumulative gain is positive, keeps the best partition seen, and
 * stops once `patience` consecutive committed passes have not lowered the best cut.
 */
module KlPatience {
  import opened Seqs
  import opened Graphs
  import opened CutGain
  import opened KlPass
  import opened KlClassic

  /** Record k is strictly below every earlier record: it sets a new best cut. */
  ghost predicate NewBest(h: seq<HistoryEntry>, k: nat)
    requires k < |h|
  {
    forall i | 0 <= i < k :: h[k].cut < h[i].cut
  }

  /**
   * The last record that set a new best cut.  It holds the smallest cut of the
   * history, and it is the first record with that cut.
   */
  function LastRecord(h: seq<HistoryEntry>): (r: nat)
    requires |h| >= 1
    ensures r < |h| && NewBest(h, r)
    ensures forall k | r < k < |h| :: !NewBest(h, k)
    ensures forall i | 0 <= i < |h| :: h[r].cut <= h[i].cut
    decreases |h|
  {
    if |h| == 1 then 0
    else
      var front := h[..|h| - 1];
      var k := LastRecord(front);
      assert forall i | 0 <= i < |front| :: front[i] == h[i];
      if h[|h| - 1].cut < h[k].cut then |h| - 1 else k
  }

  /** Appending a record moves the last new best to it exactly when it is below the best so far. */
  lemma {:induction false} LastRecordSnoc(h: seq<HistoryEntry>, e: HistoryEntry)
    requires |h| >= 1
    ensures LastRecord(h + [e]) == if e.cut < h[LastRecord(h)].cut then |h| else LastRecord(h)
  {
    assert (h + [e])[..|h|] == h;
  }

  /** Appending a record keeps the earlier prefixes and their stop test. */
  lemma {:induction false} RecordStep(h: seq<HistoryEntry>, e: HistoryEntry, patience: int)
    requires |h| >= 1
    requires forall n | 2 <= n < |h| :: n - 1 - LastRecord(h[..n]) < patience
    requires |h| >= 2 ==> |h| - 1 - LastRecord(h) < patience
    ensures LastRecord(h + [e]) == if e.cut < h[LastRecord(h)].cut then |h| else LastRecord(h)
    ensures forall n | 2 <= n < |h + [e]| :: n - 1 - LastRecord((h + [e])[..n]) < patience
  {
    LastRecordSnoc(h, e);
    forall n | 2 <= n < |h + [e]|
      ensures n - 1 - LastRecord((h + [e])[..n]) < patience
    {
      assert (h + [e])[..n] == h[..n];
      if n == |h| {
        assert h[..n] == h;
      }
    }
  }

  /** Every prefix run that went on passed the stop test. */
  predicate KeptGoing(history: seq<HistoryEntry>, patience: int)
  {
    forall n | 2 <= n < |history| :: n - 1 - LastRecord(history[..n]) < patience
  }

  /**
   * Why a run may end before its pass limit: the last pass found no prefix of
   * positive cumulative gain, or the last `patience` or more committed passes all
   * failed to set a new best cut.
   */
  ghost predicate Stopped(g: Graph, patience: int, trail: seq<Bipartition>, history: seq<HistoryEntry>)
    requires |trail| >= 1 && |history| >= 1
  {
    || CommitCount(g, PassStartD, trail[|trail| - 1]) == 0
    || (|history| > 1 && |history| - 1 - LastRecord(history) >= patience)
  }

  /** The loop state of the patience driver after some committed passes. */
  ghost predicate PatienceState(g: Graph, p0: Bipartition, patience: int, trail: seq<Bipartition>,
                                history: seq<HistoryEntry>, p: Bipartition, best: Bipartition, bestCut: nat, stale: int)
  {
    && Chronicle(g, PassStartD, trail, history) && trail[0] == p0 && history[0].note == InitialState
    && p == trail[|trail| - 1] && Valid(p) && SameShape(p0, p)
    && best == trail[LastRecord(history)] && bestCut == history[LastRecord(history)].cut
    && Valid(best) && SameShape(p0, best) && bestCut <= CutSize(g, p0)
    && stale == |history| - 1 - LastRecord(history)
    && KeptGoing(history, patience)
  }

  /** A committed pass advances the loop state the way the driver's bookkeeping does. */
  lemma {:induction false} PatienceAdvance(g: Graph, p0: Bipartition, patience: int, trail: seq<Bipartition>,
                        history: seq<HistoryEntry>, p: Bipartition, best: Bipartition, bestCut: nat, stale: int,
                        q: Bipartition, n: nat)
    requires PatienceState(g, p0, patience, trail, history, p, best, bestCut, stale)
    requires |history| >= 2 ==> stale < patience
    requires CommitCount(g, PassStartD, p) == n > 0 && q == AfterPass(g, PassStartD, p)
    ensures var cut := CutSize(g, q);
      var best', bestCut' := if cut < bestCut then q else best, if cut < bestCut then cut else bestCut;
      PatienceState(g, p0, patience, trail + [q], history + [HistoryEntry(|history|, cut, Applied(n))],
                    q, best', bestCut', if bestCut' < bestCut then 0 else stale + 1)
  {
    ChronicleStep(g, PassStartD, trail, history, q, n);
    var e := HistoryEntry(|history|, CutSize(g, q), Applied(n));
    RecordStep(history, e, patience);
    assert (trail + [q])[|history|] == q;
    assert (trail + [q])[LastRecord(history)] == trail[LastRecord(history)];
    assert (history + [e])[LastRecord(history)] == history[LastRecord(history)];
  }

  /**
   * The patience driver from p0: at most maxPasses passes of the pass-start-D
   * engine.  The result is the first partition of smallest cut the run went
   * through; the run stops when the pass limit is reached, when a pass finds no
   * positive cumulative gain, or when the last `patience` or more committed passes
   * all failed to set a new best cut.
   */
  method KernighanLinPatience(g: Graph, p0: Bipartition, maxPasses: int, patience: int)
    returns (best: Bipartition, bestCut: nat, history: seq<HistoryEntry>, ghost trail: seq<Bipartition>)
    requires Valid(p0)
    ensures Chronicle(g, PassStartD, trail, history) && trail[0] == p0 && history[0].note == InitialState
    ensures best == trail[LastRecord(history)] && bestCut == history[LastRecord(history)].cut
    ensures |history| - 1 <= Max(0, maxPasses)
    ensures |history| - 1 < maxPasses ==> Stopped(g, patience, trail, history)
    ensures KeptGoing(history, patience)
    ensures Valid(best) && SameShape(p0, best) && bestCut <= CutSize(g, p0)
  {
    var p := p0;
    best, bestCut := p0, CutSize(g, p0);
    history := [HistoryEntry(0, bestCut, InitialState)];
    trail := [p0];
    ChronicleStart(g, PassStartD, p0, InitialState);
    var passesWithoutImprovement := 0;
    var passNum := 1;
    while passNum <= maxPasses
      invariant 1 <= passNum == |history| && passNum - 1 <= Max(0, maxPasses)
      invariant PatienceState(g, p0, patience, trail, history, p, best, bestCut, passesWithoutImprovement)
      invariant |history| >= 2 ==> passesWithoutImprovement < patience
      decreases maxPasses - passNum
    {
      var cutBeforePass := bestCut;
      var maxGain, count, q := RunPass(g, PassStartD, p);
      if maxGain > 0 {
        PatienceAdvance(g, p0, patience, trail, history, p, best, bestCut, passesWithoutImprovement, q, count);
        p := q;
        var cut := CutSize(g, p);
        history := history + [HistoryEntry(passNum, cut, Applied(count))];
        trail := trail + [p];
        if cut < bestCut {
          bestCut := cut;
          best := p;
        }
      } else {
        assert Stopped(g, patience, trail, history);
        break;
      }
      if bestCut < cutBeforePass {
        passesWithoutImprovement := 0;
      } else {
        passesWithoutImprovement := passesWithoutImprovement + 1;
      }
      if passesWithoutImprovement >= patience {
        assert Stopped(g, patience, trail, history);
        break;
      }
      passNum := passNum + 1;
    }
  }
}

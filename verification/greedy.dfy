/**
 * The greedy single-exchange baseline: each iteration recomputes the D values of
 * the current partition, performs the single exchange of strictly positive gain
 * that is largest (the first one in scan order among equals), and stops when no
 * exchange has positive gain or the iteration limit is reached.
 */
module Greedy {
  import opened Seqs
  import opened Graphs
  import opened CutGain
  import opened KlPass

  /** The `details` text of an iteration record. */
  datatype GreedyNote = Start | Swapped(a: Node, b: Node, gain: int)

  /** One iteration record: the iteration number, the cut after it, and its details. */
  datatype GreedyEntry = GreedyEntry(iteration: nat, cut: nat, note: GreedyNote)

  /**
   * The exchange an iteration performs: the first pair in scan order whose gain
   * under the current D values is largest, provided that gain is positive.
   */
  function GreedyChoice(g: Graph, p: Bipartition): Option<Exchange>
  {
    if p.A == [] || p.B == [] then None
    else
      var d := DValues(g, p);
      var ij := FirstBestPair(g, d, p.A, p.B);
      var gain := PairGain(g, d, p.A, p.B, ij.0, ij.1);
      if gain > 0 then Some(Exchange(gain, p.A[ij.0], p.B[ij.1])) else None
  }

  /**
   * An exchange is made exactly when some pair has positive gain, and then it is
   * the scan-order maximum over A x B under the D values of the current partition.
   */
  lemma {:induction false} GreedyChoiceSpec(g: Graph, p: Bipartition)
    ensures var d := DValues(g, p);
      && (GreedyChoice(g, p).None? <==>
            forall i, j | 0 <= i < |p.A| && 0 <= j < |p.B| :: PairGain(g, d, p.A, p.B, i, j) <= 0)
      && (GreedyChoice(g, p).Some? ==>
            exists i, j :: IsScanMax(g, d, p.A, p.B, i, j)
              && GreedyChoice(g, p).value == Exchange(PairGain(g, d, p.A, p.B, i, j), p.A[i], p.B[j])
              && PairGain(g, d, p.A, p.B, i, j) > 0)
  {
    var d := DValues(g, p);
    if p.A != [] && p.B != [] {
      var ij := FirstBestPair(g, d, p.A, p.B);
      assert IsScanMax(g, d, p.A, p.B, ij.0, ij.1);
    }
  }

  /** A performed exchange lowers the cut by at least its gain, and by exactly its
      gain in a graph without self-loops. */
  lemma {:induction false} GreedyChoiceImproves(g: Graph, p: Bipartition)
    requires Valid(p) && GreedyChoice(g, p).Some?
    ensures var x := GreedyChoice(g, p).value;
      && x.a in p.A && x.b in p.B && x.gain > 0
      && CutSize(g, Swap(p, x.a, x.b)) <= CutSize(g, p) - x.gain < CutSize(g, p)
      && (NoSelfLoops(g) ==> CutSize(g, Swap(p, x.a, x.b)) == CutSize(g, p) - x.gain)
  {
    var x := GreedyChoice(g, p).value;
    var d := DValues(g, p);
    SwapGain(g, p, d, x.a, x.b);
    if NoSelfLoops(g) {
      NoSelfWeight(g, x.a);
      NoSelfWeight(g, x.b);
    }
  }

  /** The sentinel-0 scan: the first pair whose gain is positive and largest, if any. */
  method BestPositivePair(g: Graph, d: map<Node, int>, A: seq<Node>, B: seq<Node>)
    returns (found: bool, i: nat, j: nat, gain: int)
    requires Covers(d, A) && Covers(d, B)
    ensures found <==> exists p, q | 0 <= p < |A| && 0 <= q < |B| :: PairGain(g, d, A, B, p, q) > 0
    ensures found ==> IsScanMax(g, d, A, B, i, j) && gain == PairGain(g, d, A, B, i, j)
  {
    found := false;
    i, j, gain := 0, 0, 0;
    for p := 0 to |A|
      invariant found ==> i < p && j < |B| && gain == PairGain(g, d, A, B, i, j) && gain > 0
      invariant !found ==> gain == 0
      invariant forall p', q | 0 <= p' < p && 0 <= q < |B| :: PairGain(g, d, A, B, p', q) <= gain
      invariant found ==> forall p', q | 0 <= p' < p && 0 <= q < |B| && ScanBefore(p', q, i, j) ::
        PairGain(g, d, A, B, p', q) < gain
    {
      for q := 0 to |B|
        invariant found ==> ScanBefore(i, j, p, q) && i <= p && j < |B| && gain == PairGain(g, d, A, B, i, j) && gain > 0
        invariant !found ==> gain == 0
        invariant forall p', q' | 0 <= p' < |A| && 0 <= q' < |B| && ScanBefore(p', q', p, q) ::
          PairGain(g, d, A, B, p', q') <= gain
        invariant found ==> forall p', q' | 0 <= p' < |A| && 0 <= q' < |B| && ScanBefore(p', q', p, q) && ScanBefore(p', q', i, j) ::
          PairGain(g, d, A, B, p', q') < gain
      {
        var c := PairGain(g, d, A, B, p, q);
        if c > gain {
          i, j, gain := p, q, c;
          found := true;
        }
      }
    }
  }

  /** The chosen exchange, computed by the scan. */
  method ChooseSwap(g: Graph, p: Bipartition) returns (x: Option<Exchange>)
    ensures x == GreedyChoice(g, p)
  {
    var d := DValues(g, p);
    var found, i, j, gain := BestPositivePair(g, d, p.A, p.B);
    if !found {
      GreedyChoiceSpec(g, p);
      return None;
    }
    var ij := FirstBestPair(g, d, p.A, p.B);
    ScanMaxUnique(g, d, p.A, p.B, i, j, ij.0, ij.1);
    x := Some(Exchange(gain, p.A[i], p.B[j]));
  }

  /** `next` is `prev` with its chosen exchange performed, and `entry` reports that exchange. */
  ghost predicate GreedyAdvance(g: Graph, prev: Bipartition, next: Bipartition, entry: GreedyEntry)
  {
    var x := GreedyChoice(g, prev);
    && x.Some?
    && next == Swap(prev, x.value.a, x.value.b)
    && entry.note == Swapped(x.value.a, x.value.b, x.value.gain)
  }

  /**
   * The iteration records against the partitions they describe: record k holds
   * iteration number k and the cut of trail[k], and every later partition is the
   * previous one with its chosen exchange performed.
   */
  ghost predicate GreedyChronicle(g: Graph, trail: seq<Bipartition>, history: seq<GreedyEntry>)
    decreases |trail|
  {
    && |trail| == |history| >= 1
    && Valid(trail[|trail| - 1])
    && history[|history| - 1].iteration == |history| - 1
    && history[|history| - 1].cut == CutSize(g, trail[|trail| - 1])
    && (|trail| > 1 ==>
          && GreedyChronicle(g, trail[..|trail| - 1], history[..|history| - 1])
          && GreedyAdvance(g, trail[|trail| - 2], trail[|trail| - 1], history[|history| - 1]))
  }

  /** A performed exchange from the last partition extends the records by one. */
  lemma {:induction false} GreedyChronicleSnoc(g: Graph, trail: seq<Bipartition>, history: seq<GreedyEntry>, q: Bipartition, entry: GreedyEntry)
    requires GreedyChronicle(g, trail, history)
    requires GreedyAdvance(g, trail[|trail| - 1], q, entry) && Valid(q)
    requires entry.iteration == |history| && entry.cut == CutSize(g, q)
    ensures GreedyChronicle(g, trail + [q], history + [entry])
  {
    Snoc(trail, q);
    Snoc(history, entry);
  }

  /** Each recorded cut is strictly below the one before. */
  predicate GreedyDescending(history: seq<GreedyEntry>)
  {
    forall i, j | 0 <= i < j < |history| :: history[j].cut < history[i].cut
  }

  /** Appending a record below the last keeps the records descending. */
  lemma {:induction false} GreedyDescendingSnoc(history: seq<GreedyEntry>, entry: GreedyEntry)
    requires GreedyDescending(history) && history != [] && entry.cut < history[|history| - 1].cut
    ensures GreedyDescending(history + [entry]) && (history + [entry])[0] == history[0]
  {
  }

  /** The loop state of the greedy driver after some exchanges. */
  ghost predicate GreedyState(g: Graph, p0: Bipartition, trail: seq<Bipartition>, history: seq<GreedyEntry>,
                              final: Bipartition)
  {
    && GreedyChronicle(g, trail, history) && trail[0] == p0 && history[0].note == Start
    && final == trail[|trail| - 1] && history[|history| - 1].cut == CutSize(g, final)
    && GreedyDescending(history) && CutSize(g, final) <= CutSize(g, p0)
    && Valid(final) && SameShape(p0, final)
  }

  /** The chosen exchange gives a valid partition of the same shape and a lower cut, recorded as a step. */
  lemma {:induction false} GreedyMove(g: Graph, final: Bipartition, x: Exchange, entry: GreedyEntry)
    requires Valid(final) && GreedyChoice(g, final) == Some(x)
    requires entry.note == Swapped(x.a, x.b, x.gain)
    ensures var q := Swap(final, x.a, x.b);
      && Valid(q) && SameShape(final, q) && CutSize(g, q) < CutSize(g, final)
      && GreedyAdvance(g, final, q, entry)
  {
    GreedyChoiceImproves(g, final);
    SwapShape(final, x.a, x.b);
  }

  /** A performed exchange extends the records and lowers the cut below every earlier one. */
  lemma {:induction false} GreedyStep(g: Graph, p0: Bipartition, trail: seq<Bipartition>, history: seq<GreedyEntry>,
                   final: Bipartition, x: Exchange)
    requires GreedyState(g, p0, trail, history, final) && GreedyChoice(g, final) == Some(x)
    ensures var q := Swap(final, x.a, x.b);
      GreedyState(g, p0, trail + [q], history + [GreedyEntry(|history|, CutSize(g, q), Swapped(x.a, x.b, x.gain))], q)
  {
    var q := Swap(final, x.a, x.b);
    var entry := GreedyEntry(|history|, CutSize(g, q), Swapped(x.a, x.b, x.gain));
    GreedyMove(g, final, x, entry);
    GreedyChronicleSnoc(g, trail, history, q, entry);
    GreedyDescendingSnoc(history, entry);
    assert (trail + [q])[0] == p0;
  }

  /**
   * The greedy baseline from p0, at most maxIterations exchanges.  Returns the
   * final partition and its cut (there is no separate best: every exchange lowers
   * the cut); stops early only when no exchange has positive gain.
   */
  method SimpleGreedy(g: Graph, p0: Bipartition, maxIterations: int)
    returns (final: Bipartition, finalCut: nat, history: seq<GreedyEntry>, ghost trail: seq<Bipartition>)
    requires Valid(p0)
    ensures GreedyChronicle(g, trail, history) && trail[0] == p0 && history[0].note == Start
    ensures |history| - 1 <= Max(0, maxIterations)
    ensures |history| - 1 < maxIterations ==> GreedyChoice(g, final) == None
    ensures final == trail[|trail| - 1] && finalCut == CutSize(g, final)
    ensures GreedyDescending(history) && finalCut <= CutSize(g, p0)
    ensures Valid(final) && SameShape(p0, final)
  {
    final := p0;
    history := [GreedyEntry(0, CutSize(g, p0), Start)];
    trail := [p0];
    var iteration := 1;
    while iteration <= maxIterations
      invariant 1 <= iteration == |history| && iteration - 1 <= Max(0, maxIterations)
      invariant GreedyState(g, p0, trail, history, final)
      decreases maxIterations - iteration
    {
      var choice := ChooseSwap(g, final);
      if choice.Some? {
        var x := choice.value;
        GreedyStep(g, p0, trail, history, final, x);
        final := Swap(final, x.a, x.b);
        var cut := CutSize(g, final);
        history := history + [GreedyEntry(iteration, cut, Swapped(x.a, x.b, x.gain))];
        trail := trail + [final];
      } else {
        break;
      }
      iteration := iteration + 1;
    }
    finalCut := CutSize(g, final);
  }
}

/**
 * The classic Kernighan-Lin driver: repeated passes from a given initial
 * bipartition, each committing the best prefix of its locked exchanges, until a
 * pass finds no positive cumulative gain or the pass limit is reached.
 */
module KlClassic {
  import opened Seqs
  import opened Graphs
  import opened CutGain
  import opened KlPass

  /** The `details` text of a history record. */
  datatype Note = InitialState | BfsInitialState | Applied(swaps: nat)

  /** One history record: the pass number, the cut after that pass, and its details. */
  datatype HistoryEntry = HistoryEntry(pass: nat, cut: nat, note: Note)

  /** `next` is the result of a pass of engine e from `prev` that committed exchanges. */
  ghost predicate Advance(g: Graph, e: Engine, prev: Bipartition, next: Bipartition, entry: HistoryEntry)
  {
    && Valid(prev)
    && CommitCount(g, e, prev) > 0
    && next == AfterPass(g, e, prev)
    && entry.note == Applied(CommitCount(g, e, prev))
  }

  /**
   * The history of a run of engine e against the partitions it went through:
   * record i holds pass number i and the cut of trail[i], and every later
   * partition comes from a committing pass from the one before.
   */
  ghost predicate Chronicle(g: Graph, e: Engine, trail: seq<Bipartition>, history: seq<HistoryEntry>)
    decreases |trail|
  {
    && |trail| == |history| >= 1
    && Valid(trail[|trail| - 1])
    && history[|history| - 1].pass == |history| - 1
    && history[|history| - 1].cut == CutSize(g, trail[|trail| - 1])
    && (|trail| > 1 ==>
          && Chronicle(g, e, trail[..|trail| - 1], history[..|history| - 1])
          && Advance(g, e, trail[|trail| - 2], trail[|trail| - 1], history[|history| - 1]))
  }

  /** Each recorded cut is strictly below the one before. */
  predicate Descending(history: seq<HistoryEntry>)
  {
    forall i, j | 0 <= i < j < |history| :: history[j].cut < history[i].cut
  }

  lemma {:induction false} ChronicleStart(g: Graph, e: Engine, p: Bipartition, note: Note)
    requires Valid(p)
    ensures Chronicle(g, e, [p], [HistoryEntry(0, CutSize(g, p), note)])
  {
  }

  /** A committing pass from the last partition extends the chronicle by one record. */
  lemma {:induction false} ChronicleSnoc(g: Graph, e: Engine, trail: seq<Bipartition>, history: seq<HistoryEntry>,
                      q: Bipartition, entry: HistoryEntry)
    requires Chronicle(g, e, trail, history)
    requires Advance(g, e, trail[|trail| - 1], q, entry) && Valid(q)
    requires entry.pass == |history| && entry.cut == CutSize(g, q)
    ensures Chronicle(g, e, trail + [q], history + [entry])
  {
    Snoc(trail, q);
    Snoc(history, entry);
  }

  /** The chronicle read record by record. */
  lemma {:induction false} ChronicleAt(g: Graph, e: Engine, trail: seq<Bipartition>, history: seq<HistoryEntry>, i: nat)
    requires Chronicle(g, e, trail, history) && i < |trail|
    ensures Valid(trail[i]) && history[i].pass == i && history[i].cut == CutSize(g, trail[i])
    ensures i > 0 ==> Advance(g, e, trail[i - 1], trail[i], history[i])
    decreases |trail|
  {
    if i < |trail| - 1 {
      var t, h := trail[..|trail| - 1], history[..|history| - 1];
      ChronicleAt(g, e, t, h, i);
      assert t[i] == trail[i] && h[i] == history[i];
      if i > 0 {
        assert t[i - 1] == trail[i - 1];
      }
    }
  }

  /** Appending a record below the last keeps the history descending. */
  lemma {:induction false} DescendingSnoc(history: seq<HistoryEntry>, entry: HistoryEntry)
    requires Descending(history) && history != [] && entry.cut < history[|history| - 1].cut
    ensures Descending(history + [entry]) && (history + [entry])[0] == history[0]
  {
  }

  /** A committing pass of either engine extends the chronicle and keeps the partition's shape. */
  lemma {:induction false} ChronicleStep(g: Graph, e: Engine, trail: seq<Bipartition>, history: seq<HistoryEntry>, q: Bipartition, n: nat)
    requires Chronicle(g, e, trail, history)
    requires CommitCount(g, e, trail[|trail| - 1]) == n > 0
    requires q == AfterPass(g, e, trail[|trail| - 1])
    ensures Valid(q) && SameShape(trail[|trail| - 1], q)
    ensures Chronicle(g, e, trail + [q], history + [HistoryEntry(|history|, CutSize(g, q), Applied(n))])
  {
    var p, entry := trail[|trail| - 1], HistoryEntry(|history|, CutSize(g, q), Applied(n));
    AfterPassShape(g, e, p);
    assert Advance(g, e, p, q, entry);
    ChronicleSnoc(g, e, trail, history, q, entry);
  }

  /** A committing classic pass extends the chronicle and lowers the cut. */
  lemma {:induction false} ClassicStep(g: Graph, trail: seq<Bipartition>, history: seq<HistoryEntry>, q: Bipartition, n: nat)
    requires Chronicle(g, Classic, trail, history)
    requires CommitCount(g, Classic, trail[|trail| - 1]) == n > 0
    requires q == AfterPass(g, Classic, trail[|trail| - 1])
    ensures CutSize(g, q) < CutSize(g, trail[|trail| - 1])
    ensures Valid(q) && SameShape(trail[|trail| - 1], q)
    ensures Chronicle(g, Classic, trail + [q], history + [HistoryEntry(|history|, CutSize(g, q), Applied(n))])
  {
    AfterPassImproves(g, trail[|trail| - 1]);
    ChronicleStep(g, Classic, trail, history, q, n);
  }

  /** The loop state of the classic driver after some committed passes. */
  ghost predicate ClassicState(g: Graph, p0: Bipartition, start: Note, trail: seq<Bipartition>,
                               history: seq<HistoryEntry>, p: Bipartition)
  {
    && Chronicle(g, Classic, trail, history) && trail[0] == p0 && history[0].note == start
    && p == trail[|trail| - 1] && history[|history| - 1].cut == CutSize(g, p)
    && Descending(history) && CutSize(g, p) <= CutSize(g, p0)
    && Valid(p) && SameShape(p0, p)
  }

  /** A committed pass advances the loop state, with a strictly smaller cut. */
  lemma {:induction false} ClassicAdvance(g: Graph, p0: Bipartition, start: Note, trail: seq<Bipartition>,
                       history: seq<HistoryEntry>, p: Bipartition, q: Bipartition, n: nat)
    requires ClassicState(g, p0, start, trail, history, p)
    requires CommitCount(g, Classic, p) == n > 0 && q == AfterPass(g, Classic, p)
    ensures CutSize(g, q) < CutSize(g, p)
    ensures ClassicState(g, p0, start, trail + [q], history + [HistoryEntry(|history|, CutSize(g, q), Applied(n))], q)
  {
    ClassicStep(g, trail, history, q, n);
    DescendingSnoc(history, HistoryEntry(|history|, CutSize(g, q), Applied(n)));
    assert (trail + [q])[0] == p0;
  }

  /** The loop state read back as the facts the driver promises. */
  lemma {:induction false} ClassicStateFacts(g: Graph, p0: Bipartition, start: Note, trail: seq<Bipartition>,
                          history: seq<HistoryEntry>, p: Bipartition)
    requires ClassicState(g, p0, start, trail, history, p)
    ensures Chronicle(g, Classic, trail, history) && trail[0] == p0 && history[0].note == start
    ensures p == trail[|trail| - 1] && |trail| == |history|
    ensures Descending(history) && CutSize(g, p) <= CutSize(g, p0)
    ensures Valid(p) && SameShape(p0, p)
  {
  }

  /**
   * Kernighan-Lin from the bipartition p0, at most maxPasses passes.  The result
   * is the partition after the last pass that committed exchanges; the run stops
   * early only when a pass finds no prefix of positive cumulative gain.  `start`
   * labels the first history record.
   */
  method KernighanLin(g: Graph, p0: Bipartition, maxPasses: int, start: Note)
    returns (best: Bipartition, bestCut: nat, history: seq<HistoryEntry>, ghost trail: seq<Bipartition>)
    requires Valid(p0)
    ensures Chronicle(g, Classic, trail, history) && trail[0] == p0 && history[0].note == start
    ensures |history| - 1 <= Max(0, maxPasses)
    ensures |history| - 1 < maxPasses ==> CommitCount(g, Classic, trail[|trail| - 1]) == 0
    ensures best == trail[|trail| - 1] && bestCut == CutSize(g, best)
    ensures Descending(history) && bestCut <= CutSize(g, p0)
    ensures Valid(best) && SameShape(p0, best)
  {
    var p := p0;
    best, bestCut := p0, CutSize(g, p0);
    history := [HistoryEntry(0, bestCut, start)];
    trail := [p0];
    ChronicleStart(g, Classic, p0, start);
    var passNum := 1;
    while passNum <= maxPasses
      invariant 1 <= passNum == |history| && passNum - 1 <= Max(0, maxPasses)
      invariant ClassicState(g, p0, start, trail, history, p)
      invariant best == p && bestCut == CutSize(g, p)
      decreases maxPasses - passNum
    {
      var maxGain, count, q := RunPass(g, Classic, p);
      if maxGain > 0 {
        var cut := CutSize(g, q);
        ClassicAdvance(g, p0, start, trail, history, p, q, count);
        history := history + [HistoryEntry(passNum, cut, Applied(count))];
        trail := trail + [q];
        p := q;
        if cut < bestCut {
          bestCut := cut;
          best := p;
        }
      } else {
        assert CommitCount(g, Classic, p) == 0;
        break;
      }
      passNum := passNum + 1;
    }
    ClassicStateFacts(g, p0, start, trail, history, p);
  }
}

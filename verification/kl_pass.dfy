/**
 * One Kernighan-Lin pass: the locking search of min(|A|, |B|) tentative
 * exchanges, the prefix-sum rollback that picks how many of them to keep, and the
 * commit of that prefix.  The functional definitions (LockFrom, ApplySwaps) are the
 * specification; the methods are the loops of the partitioners, proved against them.
 */
module KlPass {
  import opened Seqs
  import opened Graphs
  import opened CutGain

  /** A tentative exchange recorded during a pass: its gain and the pair (a, b). */
  datatype Exchange = Exchange(gain: int, a: Node, b: Node)

  function Gains(s: seq<Exchange>): (r: seq<int>)
    ensures |r| == |s| && forall k | 0 <= k < |s| :: r[k] == s[k].gain
  {
    seq(|s|, k requires 0 <= k < |s| => s[k].gain)
  }

  predicate Covers(d: map<Node, int>, s: seq<Node>)
  {
    forall x | x in s :: x in d
  }

  // ---------------------------------------------------------------------------
  // The nested pair scan
  // ---------------------------------------------------------------------------

  /** Pair (p, q) comes before pair (i, j) in the scan `for a in UA: for b in UB`. */
  predicate ScanBefore(p: int, q: int, i: int, j: int)
  {
    p < i || (p == i && q < j)
  }

  /** The gain of pair (UA[p], UB[q]). */
  function PairGain(g: Graph, d: map<Node, int>, UA: seq<Node>, UB: seq<Node>, p: int, q: int): int
    requires Covers(d, UA) && Covers(d, UB) && 0 <= p < |UA| && 0 <= q < |UB|
  {
    Gain(g, d, UA[p], UB[q])
  }

  /**
   * (i, j) is the pair the scan settles on when it keeps a pair only if its gain is
   * strictly greater: a pair of maximum gain, and the first such pair.
   */
  ghost predicate IsScanMax(g: Graph, d: map<Node, int>, UA: seq<Node>, UB: seq<Node>, i: int, j: int)
    requires Covers(d, UA) && Covers(d, UB)
  {
    && 0 <= i < |UA| && 0 <= j < |UB|
    && (forall p, q | 0 <= p < |UA| && 0 <= q < |UB| ::
          PairGain(g, d, UA, UB, p, q) <= PairGain(g, d, UA, UB, i, j))
    && (forall p, q | 0 <= p < |UA| && 0 <= q < |UB| && ScanBefore(p, q, i, j) ::
          PairGain(g, d, UA, UB, p, q) < PairGain(g, d, UA, UB, i, j))
  }

  /** Two pairs that both satisfy IsScanMax are the same pair. */
  lemma {:induction false} ScanMaxUnique(g: Graph, d: map<Node, int>, UA: seq<Node>, UB: seq<Node>, i: int, j: int, i': int, j': int)
    requires Covers(d, UA) && Covers(d, UB)
    requires IsScanMax(g, d, UA, UB, i, j) && IsScanMax(g, d, UA, UB, i', j')
    ensures i == i' && j == j'
  {
    if ScanBefore(i, j, i', j') || ScanBefore(i', j', i, j) {
      assert false;
    }
  }

  /** The scan only reads the D entries of the nodes it scans. */
  lemma {:induction false} ScanMaxAgree(g: Graph, d: map<Node, int>, d': map<Node, int>, UA: seq<Node>, UB: seq<Node>, i: int, j: int)
    requires Covers(d, UA) && Covers(d, UB) && Covers(d', UA) && Covers(d', UB)
    requires forall x | x in UA || x in UB :: d[x] == d'[x]
    requires IsScanMax(g, d, UA, UB, i, j)
    ensures IsScanMax(g, d', UA, UB, i, j)
  {
    forall p, q | 0 <= p < |UA| && 0 <= q < |UB|
      ensures PairGain(g, d, UA, UB, p, q) == PairGain(g, d', UA, UB, p, q)
    {
    }
  }

  /** The best partner of `a` among UB[..n], first one on ties. */
  function RowBest(g: Graph, d: map<Node, int>, a: Node, UB: seq<Node>, n: nat): (j: nat)
    requires a in d && Covers(d, UB) && 0 < n <= |UB|
    ensures j < n
    ensures forall q | 0 <= q < n :: Gain(g, d, a, UB[q]) <= Gain(g, d, a, UB[j])
    ensures forall q | 0 <= q < j :: Gain(g, d, a, UB[q]) < Gain(g, d, a, UB[j])
  {
    if n == 1 then 0
    else
      var j := RowBest(g, d, a, UB, n - 1);
      if Gain(g, d, a, UB[n - 1]) > Gain(g, d, a, UB[j]) then n - 1 else j
  }

  /** (i, j) beats every pair of the rows UA[..m], and strictly every pair the scan meets before it. */
  ghost predicate BestOfRows(g: Graph, d: map<Node, int>, UA: seq<Node>, UB: seq<Node>, m: nat, i: nat, j: nat)
    requires Covers(d, UA) && Covers(d, UB) && m <= |UA| && i < |UA| && j < |UB|
  {
    && (forall p, q | 0 <= p < m && 0 <= q < |UB| ::
          PairGain(g, d, UA, UB, p, q) <= PairGain(g, d, UA, UB, i, j))
    && (forall p, q | 0 <= p < m && 0 <= q < |UB| && ScanBefore(p, q, i, j) ::
          PairGain(g, d, UA, UB, p, q) < PairGain(g, d, UA, UB, i, j))
  }

  /** Scanning one more row keeps the best pair, or replaces it by a strictly better one of the new row. */
  lemma {:induction false} BestOfRowsExtend(g: Graph, d: map<Node, int>, UA: seq<Node>, UB: seq<Node>, m: nat, r: (nat, nat), j: nat)
    requires Covers(d, UA) && Covers(d, UB) && 1 < m <= |UA| && r.0 < m - 1 && r.1 < |UB| && j < |UB|
    requires BestOfRows(g, d, UA, UB, m - 1, r.0, r.1)
    requires forall q | 0 <= q < |UB| :: Gain(g, d, UA[m - 1], UB[q]) <= Gain(g, d, UA[m - 1], UB[j])
    requires forall q | 0 <= q < j :: Gain(g, d, UA[m - 1], UB[q]) < Gain(g, d, UA[m - 1], UB[j])
    ensures var r' := if PairGain(g, d, UA, UB, m - 1, j) > PairGain(g, d, UA, UB, r.0, r.1) then (m - 1, j) else r;
      BestOfRows(g, d, UA, UB, m, r'.0, r'.1)
  {
    assert forall q | 0 <= q < |UB| :: PairGain(g, d, UA, UB, m - 1, q) == Gain(g, d, UA[m - 1], UB[q]);
  }

  /** The scan's choice among the rows UA[..m], first one on ties. */
  function ScanBest(g: Graph, d: map<Node, int>, UA: seq<Node>, UB: seq<Node>, m: nat): (r: (nat, nat))
    requires Covers(d, UA) && Covers(d, UB) && 0 < m <= |UA| && 0 < |UB|
    ensures r.0 < m && r.1 < |UB|
    ensures BestOfRows(g, d, UA, UB, m, r.0, r.1)
  {
    var j := RowBest(g, d, UA[m - 1], UB, |UB|);
    if m == 1 then
      assert forall q | 0 <= q < |UB| :: PairGain(g, d, UA, UB, 0, q) == Gain(g, d, UA[0], UB[q]);
      (0, j)
    else
      var r := ScanBest(g, d, UA, UB, m - 1);
      BestOfRowsExtend(g, d, UA, UB, m, r, j);
      if PairGain(g, d, UA, UB, m - 1, j) > PairGain(g, d, UA, UB, r.0, r.1) then (m - 1, j) else r
  }

  /** The pair the nested scan over UA x UB selects. */
  function FirstBestPair(g: Graph, d: map<Node, int>, UA: seq<Node>, UB: seq<Node>): (r: (nat, nat))
    requires Covers(d, UA) && Covers(d, UB) && UA != [] && UB != []
    ensures IsScanMax(g, d, UA, UB, r.0, r.1)
  {
    ScanBest(g, d, UA, UB, |UA|)
  }

  /**
   * The nested scan of a locking step: the first pair, in row-major order, whose
   * gain D[a] + D[b] - 2 w(a, b) is maximal.  The first pair seen replaces the
   * minus-infinity starting value.
   */
  method BestPair(g: Graph, d: map<Node, int>, UA: seq<Node>, UB: seq<Node>) returns (i: nat, j: nat, gain: int)
    requires Covers(d, UA) && Covers(d, UB) && UA != [] && UB != []
    ensures IsScanMax(g, d, UA, UB, i, j)
    ensures gain == PairGain(g, d, UA, UB, i, j)
  {
    var seen := false;
    i, j, gain := 0, 0, 0;
    for p := 0 to |UA|
      invariant seen <==> p > 0
      invariant seen ==> i < p && j < |UB| && gain == PairGain(g, d, UA, UB, i, j)
      invariant forall p', q | 0 <= p' < p && 0 <= q < |UB| :: PairGain(g, d, UA, UB, p', q) <= gain
      invariant forall p', q | 0 <= p' < p && 0 <= q < |UB| && ScanBefore(p', q, i, j) ::
        PairGain(g, d, UA, UB, p', q) < gain
    {
      for q := 0 to |UB|
        invariant seen <==> p > 0 || q > 0
        invariant seen ==> ScanBefore(i, j, p, q) && i <= p && j < |UB| && gain == PairGain(g, d, UA, UB, i, j)
        invariant forall p', q' | 0 <= p' < |UA| && 0 <= q' < |UB| && ScanBefore(p', q', p, q) ::
          PairGain(g, d, UA, UB, p', q') <= gain
        invariant forall p', q' | 0 <= p' < |UA| && 0 <= q' < |UB| && ScanBefore(p', q', p, q) && ScanBefore(p', q', i, j) ::
          PairGain(g, d, UA, UB, p', q') < gain
      {
        var c := PairGain(g, d, UA, UB, p, q);
        if !seen || c > gain {
          i, j, gain := p, q, c;
          seen := true;
        }
      }
    }
  }

  // ---------------------------------------------------------------------------
  // The locking search, as a function
  // ---------------------------------------------------------------------------

  /**
   * Which D table a locking step scores with: the classic engine's D, which is
   * always that of the tentative partition (kept up to date by patching), or the
   * table computed at the start of the pass, which the patience variant never patches.
   */
  datatype DPolicy = Recomputed | PassStart(d0: map<Node, int>)

  function PassD(g: Graph, pol: DPolicy, t: Bipartition): map<Node, int>
  {
    match pol
    case Recomputed => DValues(g, t)
    case PassStart(d0) => d0
  }

  /** Unlocked nodes lie on their tentative side and have a D entry. */
  predicate LockInv(pol: DPolicy, t: Bipartition, UA: seq<Node>, UB: seq<Node>)
  {
    && (forall x | x in UA :: x in t.A)
    && (forall x | x in UB :: x in t.B)
    && (pol.PassStart? ==> Covers(pol.d0, UA) && Covers(pol.d0, UB))
  }

  lemma {:induction false} LockInvCovers(g: Graph, pol: DPolicy, t: Bipartition, UA: seq<Node>, UB: seq<Node>)
    requires LockInv(pol, t, UA, UB)
    ensures Covers(PassD(g, pol, t), UA) && Covers(PassD(g, pol, t), UB)
  {
  }

  /** The exchange a locking step records from tentative partition `t`. */
  function Choose(g: Graph, pol: DPolicy, t: Bipartition, UA: seq<Node>, UB: seq<Node>): (x: Exchange)
    requires LockInv(pol, t, UA, UB) && UA != [] && UB != []
    ensures x.a in UA && x.b in UB
    ensures x.a in PassD(g, pol, t) && x.b in PassD(g, pol, t)
    ensures x.gain == Gain(g, PassD(g, pol, t), x.a, x.b)
  {
    LockInvCovers(g, pol, t, UA, UB);
    var d := PassD(g, pol, t);
    var (i, j) := FirstBestPair(g, d, UA, UB);
    Exchange(Gain(g, d, UA[i], UB[j]), UA[i], UB[j])
  }

  /**
   * The exchanges a pass locks from tentative partition `t` while UA and UB are the
   * unlocked nodes: choose the best pair, lock it, let it change sides tentatively,
   * repeat until a side has no unlocked node.
   */
  function LockFrom(g: Graph, pol: DPolicy, t: Bipartition, UA: seq<Node>, UB: seq<Node>): seq<Exchange>
    requires LockInv(pol, t, UA, UB)
    decreases |UA|
  {
    if UA == [] || UB == [] then []
    else
      var x := Choose(g, pol, t, UA, UB);
      [x] + LockFrom(g, pol, Swap(t, x.a, x.b), Remove(UA, x.a), Remove(UB, x.b))
  }

  /** The exchanges one pass locks, starting from the committed partition `p`. */
  function LockSeq(g: Graph, pol: DPolicy, p: Bipartition): seq<Exchange>
    requires pol.PassStart? ==> Covers(pol.d0, p.A) && Covers(pol.d0, p.B)
  {
    LockFrom(g, pol, p, p.A, p.B)
  }

  /** Apply the exchanges in order, as the commit loop does. */
  function ApplySwaps(p: Bipartition, s: seq<Exchange>): Bipartition
    decreases |s|
  {
    if s == [] then p else ApplySwaps(Swap(p, s[0].a, s[0].b), s[1..])
  }

  lemma {:induction false} ApplySwapsSnoc(p: Bipartition, s: seq<Exchange>, n: nat)
    requires n < |s|
    ensures ApplySwaps(p, s[..n + 1]) == Swap(ApplySwaps(p, s[..n]), s[n].a, s[n].b)
    decreases n
  {
    if n > 0 {
      assert s[..n + 1][1..] == s[1..][..n];
      assert s[..n][1..] == s[1..][..n - 1];
      ApplySwapsSnoc(Swap(p, s[0].a, s[0].b), s[1..], n - 1);
    }
  }

  /** Exchanges whose A-nodes are distinct nodes of A and whose B-nodes are distinct nodes of B. */
  ghost predicate ValidSwaps(p: Bipartition, s: seq<Exchange>)
  {
    && (forall k | 0 <= k < |s| :: s[k].a in p.A && s[k].b in p.B)
    && LockedOnce(s)
  }

  /** No node is locked twice. */
  ghost predicate LockedOnce(s: seq<Exchange>)
  {
    forall k, l | 0 <= k < l < |s| :: s[k].a != s[l].a && s[k].b != s[l].b
  }

  lemma {:induction false} LockedOnceCons(x: Exchange, s: seq<Exchange>)
    requires LockedOnce(s) && forall k | 0 <= k < |s| :: s[k].a != x.a && s[k].b != x.b
    ensures LockedOnce([x] + s)
  {
    var r := [x] + s;
    forall k, l | 0 <= k < l < |r| ensures r[k].a != r[l].a && r[k].b != r[l].b {
      assert r[l] == s[l - 1];
      if k > 0 { assert r[k] == s[k - 1]; }
    }
  }

  /** Total self-loop weight at the nodes the exchanges move. */
  function SelfWeightOf(g: Graph, s: seq<Exchange>): nat
    decreases |s|
  {
    if s == [] then 0 else Weight(g, s[0].a, s[0].a) + Weight(g, s[0].b, s[0].b) + SelfWeightOf(g, s[1..])
  }

  lemma {:induction false} NoSelfWeightOf(g: Graph, s: seq<Exchange>)
    requires NoSelfLoops(g)
    ensures SelfWeightOf(g, s) == 0
    decreases |s|
  {
    if s != [] {
      NoSelfWeight(g, s[0].a);
      NoSelfWeight(g, s[0].b);
      NoSelfWeightOf(g, s[1..]);
    }
  }

  /** The first k exchanges of x :: s: x, then the first k - 1 of s. */
  lemma {:induction false} ConsPrefix(g: Graph, t: Bipartition, x: Exchange, s: seq<Exchange>, k: nat)
    requires 1 <= k <= |s| + 1
    ensures ApplySwaps(t, ([x] + s)[..k]) == ApplySwaps(Swap(t, x.a, x.b), s[..k - 1])
    ensures PrefixSum(Gains([x] + s), k) == x.gain + PrefixSum(Gains(s), k - 1)
    ensures SelfWeightOf(g, ([x] + s)[..k])
         == Weight(g, x.a, x.a) + Weight(g, x.b, x.b) + SelfWeightOf(g, s[..k - 1])
  {
    assert ([x] + s)[..k][1..] == s[..k - 1];
    assert Gains([x] + s)[..k] == [x.gain] + Gains(s)[..k - 1];
    SumCons(x.gain, Gains(s)[..k - 1]);
  }

  /** Same side sizes and the same set of partitioned nodes. */
  ghost predicate SameShape(p: Bipartition, q: Bipartition)
  {
    && |q.A| == |p.A| && |q.B| == |p.B|
    && (forall x :: (x in q.A || x in q.B) <==> (x in p.A || x in p.B))
  }

  /**
   * Committing valid exchanges keeps the sides disjoint, keeps both sizes and the
   * set of partitioned nodes.
   */
  lemma {:induction false} ApplySwapsShape(p: Bipartition, s: seq<Exchange>)
    requires Valid(p) && ValidSwaps(p, s)
    ensures Valid(ApplySwaps(p, s)) && SameShape(p, ApplySwaps(p, s))
    decreases |s|
  {
    if s != [] {
      var q := Swap(p, s[0].a, s[0].b);
      SwapShape(p, s[0].a, s[0].b);
      forall k | 0 <= k < |s[1..]|
        ensures s[1..][k].a in q.A && s[1..][k].b in q.B
      {
        assert s[1..][k] == s[k + 1];
        SwapMembers(p, s[0].a, s[0].b, s[k + 1].a);
        SwapMembers(p, s[0].a, s[0].b, s[k + 1].b);
      }
      forall k, l | 0 <= k < l < |s[1..]|
        ensures s[1..][k].a != s[1..][l].a && s[1..][k].b != s[1..][l].b
      {
        assert s[1..][k] == s[k + 1] && s[1..][l] == s[l + 1];
      }
      ApplySwapsShape(q, s[1..]);
    }
  }

  lemma {:induction false} ValidSwapsPrefix(p: Bipartition, s: seq<Exchange>, n: nat)
    requires ValidSwaps(p, s) && n <= |s|
    ensures ValidSwaps(p, s[..n])
  {
  }

  // ---------------------------------------------------------------------------
  // Properties of the locking search
  // ---------------------------------------------------------------------------

  /** One locking step: record the chosen exchange, lock its pair, swap it tentatively. */
  lemma {:induction false} LockFromCons(g: Graph, pol: DPolicy, t: Bipartition, UA: seq<Node>, UB: seq<Node>)
    requires LockInv(pol, t, UA, UB) && UA != [] && UB != []
    ensures var x := Choose(g, pol, t, UA, UB);
      && LockInv(pol, Swap(t, x.a, x.b), Remove(UA, x.a), Remove(UB, x.b))
      && LockFrom(g, pol, t, UA, UB)
         == [x] + LockFrom(g, pol, Swap(t, x.a, x.b), Remove(UA, x.a), Remove(UB, x.b))
      && (Valid(t) ==> Valid(Swap(t, x.a, x.b)))
  {
    var x := Choose(g, pol, t, UA, UB);
    if Valid(t) {
      SwapShape(t, x.a, x.b);
    }
  }

  /** The loop's view of LockFrom: after recording the chosen exchange the rest is still to come. */
  lemma {:induction false} LockStep(g: Graph, pol: DPolicy, t: Bipartition, UA: seq<Node>, UB: seq<Node>,
                 done: seq<Exchange>, target: seq<Exchange>)
    requires LockInv(pol, t, UA, UB) && UA != [] && UB != []
    requires done + LockFrom(g, pol, t, UA, UB) == target
    ensures var x := Choose(g, pol, t, UA, UB);
      && LockInv(pol, Swap(t, x.a, x.b), Remove(UA, x.a), Remove(UB, x.b))
      && (done + [x]) + LockFrom(g, pol, Swap(t, x.a, x.b), Remove(UA, x.a), Remove(UB, x.b)) == target
      && (Valid(t) ==> Valid(Swap(t, x.a, x.b)))
  {
    var x := Choose(g, pol, t, UA, UB);
    LockFromCons(g, pol, t, UA, UB);
    assert (done + [x]) + LockFrom(g, pol, Swap(t, x.a, x.b), Remove(UA, x.a), Remove(UB, x.b))
        == done + ([x] + LockFrom(g, pol, Swap(t, x.a, x.b), Remove(UA, x.a), Remove(UB, x.b)));
  }

  /** A pass locks one exchange per step until a side runs out of unlocked nodes. */
  lemma {:induction false} LockFromLength(g: Graph, pol: DPolicy, t: Bipartition, UA: seq<Node>, UB: seq<Node>)
    requires LockInv(pol, t, UA, UB) && Distinct(UA) && Distinct(UB)
    ensures |LockFrom(g, pol, t, UA, UB)| == Min(|UA|, |UB|)
    decreases |UA|
  {
    if UA != [] && UB != [] {
      var x := Choose(g, pol, t, UA, UB);
      LockFromCons(g, pol, t, UA, UB);
      LockFromLength(g, pol, Swap(t, x.a, x.b), Remove(UA, x.a), Remove(UB, x.b));
    }
  }

  /** Every locked A-node was unlocked in A and every locked B-node unlocked in B. */
  lemma {:induction false} LockFromMembers(g: Graph, pol: DPolicy, t: Bipartition, UA: seq<Node>, UB: seq<Node>)
    requires LockInv(pol, t, UA, UB)
    ensures var s := LockFrom(g, pol, t, UA, UB);
      forall k | 0 <= k < |s| :: s[k].a in UA && s[k].b in UB
    decreases |UA|
  {
    if UA != [] && UB != [] {
      var x := Choose(g, pol, t, UA, UB);
      var t', UA', UB' := Swap(t, x.a, x.b), Remove(UA, x.a), Remove(UB, x.b);
      LockFromCons(g, pol, t, UA, UB);
      LockFromMembers(g, pol, t', UA', UB');
      var s := LockFrom(g, pol, t, UA, UB);
      var s' := LockFrom(g, pol, t', UA', UB');
      forall k | 0 <= k < |s| ensures s[k].a in UA && s[k].b in UB {
        if k > 0 { assert s[k] == s'[k - 1]; }
      }
    }
  }

  /** A node is locked at most once in a pass. */
  lemma {:induction false} LockFromOnce(g: Graph, pol: DPolicy, t: Bipartition, UA: seq<Node>, UB: seq<Node>)
    requires LockInv(pol, t, UA, UB)
    ensures LockedOnce(LockFrom(g, pol, t, UA, UB))
    decreases |UA|
  {
    if UA != [] && UB != [] {
      var x := Choose(g, pol, t, UA, UB);
      var t', UA', UB' := Swap(t, x.a, x.b), Remove(UA, x.a), Remove(UB, x.b);
      LockFromCons(g, pol, t, UA, UB);
      LockFromMembers(g, pol, t', UA', UB');
      LockFromOnce(g, pol, t', UA', UB');
      LockedOnceCons(x, LockFrom(g, pol, t', UA', UB'));
    }
  }

  /**
   * The exchanges of one pass from a valid partition: min(|A|, |B|) of them, drawn
   * without repetition from A and from B.
   */
  lemma {:induction false} LockSeqShape(g: Graph, pol: DPolicy, p: Bipartition)
    requires Valid(p) && (pol.PassStart? ==> Covers(pol.d0, p.A) && Covers(pol.d0, p.B))
    ensures |LockSeq(g, pol, p)| == Min(|p.A|, |p.B|)
    ensures ValidSwaps(p, LockSeq(g, pol, p))
  {
    LockFromLength(g, pol, p, p.A, p.B);
    LockFromMembers(g, pol, p, p.A, p.B);
    LockFromOnce(g, pol, p, p.A, p.B);
  }

  lemma {:induction false} TelescopeBase(g: Graph, t: Bipartition, s: seq<Exchange>)
    ensures PrefixSum(Gains(s), 0) == CutSize(g, t) - CutSize(g, ApplySwaps(t, s[..0])) - SelfWeightOf(g, s[..0])
  {
    assert s[..0] == [];
    assert Gains(s)[..0] == [];
  }

  /** One more exchange in front: its gain is the cut reduction it makes, less self-loops. */
  lemma {:induction false} TelescopeStep(g: Graph, t: Bipartition, x: Exchange, s: seq<Exchange>, k: nat)
    requires 1 <= k <= |s| + 1
    requires Valid(t) && x.a in t.A && x.b in t.B
    requires x.a in DValues(g, t) && x.b in DValues(g, t) && x.gain == Gain(g, DValues(g, t), x.a, x.b)
    requires var t' := Swap(t, x.a, x.b);
      PrefixSum(Gains(s), k - 1) == CutSize(g, t') - CutSize(g, ApplySwaps(t', s[..k - 1])) - SelfWeightOf(g, s[..k - 1])
    ensures PrefixSum(Gains([x] + s), k)
         == CutSize(g, t) - CutSize(g, ApplySwaps(t, ([x] + s)[..k])) - SelfWeightOf(g, ([x] + s)[..k])
  {
    SwapGain(g, t, DValues(g, t), x.a, x.b);
    ConsPrefix(g, t, x, s, k);
  }

  /**
   * Gain accounting of the classic pass: with D kept exact, the cumulative gain of
   * the first k locked exchanges is the cut reduction of committing them, less the
   * self-loop weight at the moved nodes (which D counts as internal).
   */
  lemma {:induction false} LockFromTelescopes(g: Graph, t: Bipartition, UA: seq<Node>, UB: seq<Node>, k: nat)
    requires LockInv(Recomputed, t, UA, UB) && Valid(t)
    requires k <= |LockFrom(g, Recomputed, t, UA, UB)|
    ensures var s := LockFrom(g, Recomputed, t, UA, UB);
      PrefixSum(Gains(s), k) == CutSize(g, t) - CutSize(g, ApplySwaps(t, s[..k])) - SelfWeightOf(g, s[..k])
    decreases |UA|
  {
    var s := LockFrom(g, Recomputed, t, UA, UB);
    if k == 0 {
      TelescopeBase(g, t, s);
    } else {
      var x := Choose(g, Recomputed, t, UA, UB);
      var t', UA', UB' := Swap(t, x.a, x.b), Remove(UA, x.a), Remove(UB, x.b);
      LockFromCons(g, Recomputed, t, UA, UB);
      var s' := LockFrom(g, Recomputed, t', UA', UB');
      LockFromTelescopes(g, t', UA', UB', k - 1);
      assert PassD(g, Recomputed, t) == DValues(g, t);
      TelescopeStep(g, t, x, s', k);
    }
  }

  /**
   * The classic pass's cumulative gains are the cut reductions of its prefixes
   * (exactly so in a graph without self-loops), so a positive cumulative gain
   * means a strictly smaller cut.
   */
  lemma {:induction false} LockSeqTelescopes(g: Graph, p: Bipartition, k: nat)
    requires Valid(p) && k <= |LockSeq(g, Recomputed, p)|
    ensures var s := LockSeq(g, Recomputed, p);
      CutSize(g, ApplySwaps(p, s[..k])) <= CutSize(g, p) - PrefixSum(Gains(s), k)
    ensures var s := LockSeq(g, Recomputed, p);
      NoSelfLoops(g) ==> CutSize(g, ApplySwaps(p, s[..k])) == CutSize(g, p) - PrefixSum(Gains(s), k)
  {
    LockFromTelescopes(g, p, p.A, p.B, k);
    if NoSelfLoops(g) {
      NoSelfWeightOf(g, LockSeq(g, Recomputed, p)[..k]);
    }
  }

  /** In the patience variant every recorded gain is scored with the pass-start D table. */
  lemma {:induction false} LockFromStale(g: Graph, d0: map<Node, int>, t: Bipartition, UA: seq<Node>, UB: seq<Node>)
    requires LockInv(PassStart(d0), t, UA, UB)
    ensures var s := LockFrom(g, PassStart(d0), t, UA, UB);
      forall k | 0 <= k < |s| :: s[k].a in d0 && s[k].b in d0 && s[k].gain == Gain(g, d0, s[k].a, s[k].b)
    decreases |UA|
  {
    if UA != [] && UB != [] {
      var x := Choose(g, PassStart(d0), t, UA, UB);
      var t', UA', UB' := Swap(t, x.a, x.b), Remove(UA, x.a), Remove(UB, x.b);
      LockFromCons(g, PassStart(d0), t, UA, UB);
      LockFromStale(g, d0, t', UA', UB');
      var s := LockFrom(g, PassStart(d0), t, UA, UB);
      var s' := LockFrom(g, PassStart(d0), t', UA', UB');
      forall k | 0 <= k < |s| ensures s[k].a in d0 && s[k].b in d0 && s[k].gain == Gain(g, d0, s[k].a, s[k].b) {
        if k > 0 { assert s[k] == s'[k - 1]; }
      }
    }
  }

  /** The A-nodes of the exchanges, in locking order. */
  function As(s: seq<Exchange>): (r: seq<Node>)
    ensures |r| == |s| && forall k | 0 <= k < |s| :: r[k] == s[k].a
  {
    seq(|s|, k requires 0 <= k < |s| => s[k].a)
  }

  /** The B-nodes of the exchanges, in locking order. */
  function Bs(s: seq<Exchange>): (r: seq<Node>)
    ensures |r| == |s| && forall k | 0 <= k < |s| :: r[k] == s[k].b
  {
    seq(|s|, k requires 0 <= k < |s| => s[k].b)
  }

  /** The nodes of `s` still unlocked once the nodes of `locked` have been locked, in order. */
  function Unlocked(s: seq<Node>, locked: seq<Node>): (r: seq<Node>)
    ensures forall y | y in r :: y in s && y !in locked
    ensures forall y | y in s && y !in locked :: y in r
    decreases |locked|
  {
    if locked == [] then s else Unlocked(Remove(s, locked[0]), locked[1..])
  }

  lemma {:induction false} ConsUnlocked(x: Exchange, s: seq<Exchange>, k: nat, UA: seq<Node>, UB: seq<Node>)
    requires 1 <= k <= |s| + 1
    ensures Unlocked(UA, As(([x] + s)[..k])) == Unlocked(Remove(UA, x.a), As(s[..k - 1]))
    ensures Unlocked(UB, Bs(([x] + s)[..k])) == Unlocked(Remove(UB, x.b), Bs(s[..k - 1]))
  {
    assert As(([x] + s)[..k]) == [x.a] + As(s[..k - 1]);
    assert Bs(([x] + s)[..k]) == [x.b] + Bs(s[..k - 1]);
  }

  /** The exchange recorded by a step is the scan's choice under the D table of the pass. */
  lemma {:induction false} ChooseIsScanMax(g: Graph, pol: DPolicy, t: Bipartition, UA: seq<Node>, UB: seq<Node>)
    requires LockInv(pol, t, UA, UB) && UA != [] && UB != []
    ensures var d := PassD(g, pol, t);
      && Covers(d, UA) && Covers(d, UB)
      && exists i, j :: IsScanMax(g, d, UA, UB, i, j)
           && Choose(g, pol, t, UA, UB) == Exchange(PairGain(g, d, UA, UB, i, j), UA[i], UB[j])
  {
    var d := PassD(g, pol, t);
    var (i, j) := FirstBestPair(g, d, UA, UB);
    assert IsScanMax(g, d, UA, UB, i, j);
  }

  /**
   * Step k of a pass starts from the partition with the first k exchanges applied
   * and with the first k pairs locked, and records that step's choice.
   */
  lemma {:induction false} LockFromSteps(g: Graph, pol: DPolicy, t: Bipartition, UA: seq<Node>, UB: seq<Node>, k: nat)
    requires LockInv(pol, t, UA, UB) && k < |LockFrom(g, pol, t, UA, UB)|
    ensures var s := LockFrom(g, pol, t, UA, UB);
      var tk, UAk, UBk := ApplySwaps(t, s[..k]), Unlocked(UA, As(s[..k])), Unlocked(UB, Bs(s[..k]));
      && LockInv(pol, tk, UAk, UBk) && UAk != [] && UBk != []
      && s[k] == Choose(g, pol, tk, UAk, UBk)
    decreases |UA|
  {
    var s := LockFrom(g, pol, t, UA, UB);
    var x := Choose(g, pol, t, UA, UB);
    var t', UA', UB' := Swap(t, x.a, x.b), Remove(UA, x.a), Remove(UB, x.b);
    LockFromCons(g, pol, t, UA, UB);
    var s' := LockFrom(g, pol, t', UA', UB');
    if k == 0 {
      assert s[..0] == [];
      assert As(s[..0]) == [] && Bs(s[..0]) == [];
    } else {
      LockFromSteps(g, pol, t', UA', UB', k - 1);
      ConsPrefix(g, t, x, s', k);
      ConsUnlocked(x, s', k, UA, UB);
      assert s[k] == s'[k - 1];
    }
  }

  /**
   * Every exchange a pass records is, among the pairs still unlocked at that step,
   * one of maximum gain under the pass's D table, and the first such pair the scan
   * meets.
   */
  lemma {:induction false} LockSeqChoices(g: Graph, pol: DPolicy, p: Bipartition, k: nat)
    requires pol.PassStart? ==> Covers(pol.d0, p.A) && Covers(pol.d0, p.B)
    requires k < |LockSeq(g, pol, p)|
    ensures var s := LockSeq(g, pol, p);
      var UAk, UBk := Unlocked(p.A, As(s[..k])), Unlocked(p.B, Bs(s[..k]));
      var d := PassD(g, pol, ApplySwaps(p, s[..k]));
      && (forall y :: y in UAk <==> y in p.A && y !in As(s[..k]))
      && (forall y :: y in UBk <==> y in p.B && y !in Bs(s[..k]))
      && Covers(d, UAk) && Covers(d, UBk)
      && exists i, j :: IsScanMax(g, d, UAk, UBk, i, j)
           && s[k] == Exchange(PairGain(g, d, UAk, UBk, i, j), UAk[i], UBk[j])
  {
    var s := LockSeq(g, pol, p);
    LockFromSteps(g, pol, p, p.A, p.B, k);
    ChooseIsScanMax(g, pol, ApplySwaps(p, s[..k]), Unlocked(p.A, As(s[..k])), Unlocked(p.B, Bs(s[..k])));
  }

  /**
   * Committing the first n exchanges of a pass keeps the partition's shape; in the
   * classic pass the cut drops by at least their cumulative gain, and by exactly
   * that in a graph without self-loops.
   */
  lemma {:induction false} CommitPrefix(g: Graph, pol: DPolicy, p: Bipartition, n: nat)
    requires Valid(p) && (pol.PassStart? ==> Covers(pol.d0, p.A) && Covers(pol.d0, p.B))
    requires n <= |LockSeq(g, pol, p)|
    ensures var q := ApplySwaps(p, LockSeq(g, pol, p)[..n]);
      && Valid(q) && SameShape(p, q)
      && (pol.Recomputed? ==>
            CutSize(g, q) <= CutSize(g, p) - PrefixSum(Gains(LockSeq(g, pol, p)), n))
      && (pol.Recomputed? && NoSelfLoops(g) ==>
            CutSize(g, q) == CutSize(g, p) - PrefixSum(Gains(LockSeq(g, pol, p)), n))
  {
    LockSeqShape(g, pol, p);
    ValidSwapsPrefix(p, LockSeq(g, pol, p), n);
    ApplySwapsShape(p, LockSeq(g, pol, p)[..n]);
    if pol.Recomputed? {
      LockSeqTelescopes(g, p, n);
    }
  }

  // ---------------------------------------------------------------------------
  // The locking search as loops over the unlocked lists and the D table
  // ---------------------------------------------------------------------------

  /**
   * After a and b are locked, add 2w(u,a) - 2w(u,b) to D[u] for every unlocked u
   * in A and 2w(v,b) - 2w(v,a) to D[v] for every unlocked v in B.
   */
  method PatchD(g: Graph, d: map<Node, int>, UA: seq<Node>, UB: seq<Node>, a: Node, b: Node)
    returns (d': map<Node, int>)
    requires Covers(d, UA) && Covers(d, UB) && Distinct(UA) && Distinct(UB)
    requires forall x | x in UA :: x !in UB
    ensures d'.Keys == d.Keys
    ensures forall u | u in UA :: d'[u] == d[u] + 2 * Weight(g, u, a) - 2 * Weight(g, u, b)
    ensures forall v | v in UB :: d'[v] == d[v] + 2 * Weight(g, v, b) - 2 * Weight(g, v, a)
    ensures forall x | x in d && x !in UA && x !in UB :: d'[x] == d[x]
  {
    d' := d;
    for k := 0 to |UA|
      invariant d'.Keys == d.Keys
      invariant forall l | 0 <= l < k :: d'[UA[l]] == d[UA[l]] + 2 * Weight(g, UA[l], a) - 2 * Weight(g, UA[l], b)
      invariant forall x | x in d && x !in UA[..k] :: d'[x] == d[x]
    {
      var u := UA[k];
      d' := d'[u := d'[u] + 2 * Weight(g, u, a) - 2 * Weight(g, u, b)];
    }
    assert UA[..|UA|] == UA;
    for k := 0 to |UB|
      invariant d'.Keys == d.Keys
      invariant forall u | u in UA :: d'[u] == d[u] + 2 * Weight(g, u, a) - 2 * Weight(g, u, b)
      invariant forall l | 0 <= l < k :: d'[UB[l]] == d[UB[l]] + 2 * Weight(g, UB[l], b) - 2 * Weight(g, UB[l], a)
      invariant forall x | x in d && x !in UA && x !in UB[..k] :: d'[x] == d[x]
    {
      var v := UB[k];
      d' := d'[v := d'[v] + 2 * Weight(g, v, b) - 2 * Weight(g, v, a)];
    }
    assert UB[..|UB|] == UB;
  }

  /** The patched D table is the D table of the tentative partition after the swap. */
  lemma {:induction false} PatchedIsExact(g: Graph, t: Bipartition, a: Node, b: Node, d: map<Node, int>, d': map<Node, int>,
                       UA: seq<Node>, UB: seq<Node>)
    requires Valid(t) && a in t.A && b in t.B
    requires forall y | y in UA :: y in t.A && y != a
    requires forall y | y in UB :: y in t.B && y != b
    requires Covers(d, UA) && Covers(d, UB) && Covers(d', UA) && Covers(d', UB)
    requires forall y | y in UA :: d[y] == DValue(g, t, y)
    requires forall y | y in UB :: d[y] == DValue(g, t, y)
    requires forall u | u in UA :: d'[u] == d[u] + 2 * Weight(g, u, a) - 2 * Weight(g, u, b)
    requires forall v | v in UB :: d'[v] == d[v] + 2 * Weight(g, v, b) - 2 * Weight(g, v, a)
    ensures forall y | y in UA || y in UB :: d'[y] == DValue(g, Swap(t, a, b), y)
  {
    forall y | y in UA || y in UB
      ensures d'[y] == DValue(g, Swap(t, a, b), y)
    {
      PatchIdentity(g, t, a, b, y);
    }
  }

  /**
   * The locking search of the classic engine: min(|A|, |B|) times, scan the
   * unlocked pairs for the best gain, record and lock the pair, and patch D for the
   * nodes still unlocked.  It records exactly the exchanges of LockSeq, whose D
   * values are recomputed from scratch on the tentative partition.
   */
  method LockingSearch(g: Graph, p: Bipartition) returns (swaps: seq<Exchange>)
    requires Valid(p)
    ensures swaps == LockSeq(g, Recomputed, p)
  {
    var d := DValues(g, p);
    var UA, UB := p.A, p.B;
    ghost var t := p;
    ghost var target := LockSeq(g, Recomputed, p);
    swaps := [];
    for step := 0 to Min(|p.A|, |p.B|)
      invariant LockInv(Recomputed, t, UA, UB) && Valid(t)
      invariant Distinct(UA) && Distinct(UB)
      invariant |UA| == |p.A| - step && |UB| == |p.B| - step
      invariant Covers(d, UA) && Covers(d, UB)
      invariant forall x | x in UA || x in UB :: d[x] == DValue(g, t, x)
      invariant swaps + LockFrom(g, Recomputed, t, UA, UB) == target
    {
      LockStep(g, Recomputed, t, UA, UB, swaps, target);
      var x;
      x, d, UA, UB := LockOne(g, d, UA, UB, t);
      swaps := swaps + [x];
      t := Swap(t, x.a, x.b);
    }
  }

  /**
   * One step of the classic locking search: scan for the best pair, lock it, and
   * patch D for the nodes still unlocked, so that D stays that of the tentative
   * partition.
   */
  method LockOne(g: Graph, d: map<Node, int>, UA: seq<Node>, UB: seq<Node>, ghost t: Bipartition)
    returns (x: Exchange, d': map<Node, int>, UA': seq<Node>, UB': seq<Node>)
    requires LockInv(Recomputed, t, UA, UB) && Valid(t) && UA != [] && UB != []
    requires Distinct(UA) && Distinct(UB)
    requires Covers(d, UA) && Covers(d, UB)
    requires forall y | y in UA || y in UB :: d[y] == DValue(g, t, y)
    ensures x == Choose(g, Recomputed, t, UA, UB)
    ensures UA' == Remove(UA, x.a) && UB' == Remove(UB, x.b)
    ensures Covers(d', UA') && Covers(d', UB')
    ensures forall y | y in UA' || y in UB' :: d'[y] == DValue(g, Swap(t, x.a, x.b), y)
  {
    var i, j, gain := BestPair(g, d, UA, UB);
    var a, b := UA[i], UB[j];
    // the patched table and the recomputed one pick the same pair
    ghost var dt := DValues(g, t);
    ScanMaxAgree(g, d, dt, UA, UB, i, j);
    ghost var (i', j') := FirstBestPair(g, dt, UA, UB);
    ScanMaxUnique(g, dt, UA, UB, i, j, i', j');
    x := Exchange(gain, a, b);
    UA', UB' := Remove(UA, a), Remove(UB, b);
    d' := PatchD(g, d, UA', UB', a, b);
    PatchedIsExact(g, t, a, b, d, d', UA', UB');
  }

  /**
   * The locking search of the patience variant: as LockingSearch, but D is the
   * pass-start table throughout and is never patched.
   */
  method LockingSearchStale(g: Graph, p: Bipartition) returns (swaps: seq<Exchange>)
    requires Valid(p)
    ensures swaps == LockSeq(g, PassStart(DValues(g, p)), p)
  {
    var d := DValues(g, p);
    var UA, UB := p.A, p.B;
    ghost var pol := PassStart(d);
    ghost var t := p;
    ghost var target := LockSeq(g, pol, p);
    swaps := [];
    for step := 0 to Min(|p.A|, |p.B|)
      invariant LockInv(pol, t, UA, UB)
      invariant Distinct(UA) && Distinct(UB)
      invariant |UA| == |p.A| - step && |UB| == |p.B| - step
      invariant swaps + LockFrom(g, pol, t, UA, UB) == target
    {
      var i, j, gain := BestPair(g, d, UA, UB);
      var a, b := UA[i], UB[j];
      ghost var (i', j') := FirstBestPair(g, d, UA, UB);
      ScanMaxUnique(g, d, UA, UB, i, j, i', j');
      assert Choose(g, pol, t, UA, UB) == Exchange(gain, a, b);
      LockStep(g, pol, t, UA, UB, swaps, target);
      swaps := swaps + [Exchange(gain, a, b)];
      UA, UB := Remove(UA, a), Remove(UB, b);
      t := Swap(t, a, b);
    }
  }

  // ---------------------------------------------------------------------------
  // Prefix-sum rollback and commit
  // ---------------------------------------------------------------------------

  /**
   * The rollback rule: the largest cumulative gain over the prefixes of `gains`
   * (0 when none is positive) and the 0-based index of the first prefix reaching
   * it, -1 when no prefix has a positive cumulative gain.
   */
  function PrefixChoice(gains: seq<int>): (r: (int, int))
    ensures r.0 >= 0 && -1 <= r.1 < |gains|
    ensures forall k | 1 <= k <= |gains| :: PrefixSum(gains, k) <= r.0
    ensures r.1 == -1 ==> r.0 == 0
    ensures r.1 >= 0 ==> r.0 > 0 && r.0 == PrefixSum(gains, r.1 + 1)
    ensures r.1 >= 0 ==> forall k | 1 <= k <= r.1 :: PrefixSum(gains, k) < r.0
    decreases |gains|
  {
    if gains == [] then (0, -1)
    else
      var front := gains[..|gains| - 1];
      PrefixSumsOfFront(gains);
      var r := PrefixChoice(front);
      if Sum(gains) > r.0 then (Sum(gains), |gains| - 1) else r
  }

  /** No prefix has a positive cumulative gain exactly when the rule keeps no exchange. */
  lemma {:induction false} PrefixChoiceNone(gains: seq<int>)
    ensures PrefixChoice(gains).1 == -1 <==> forall k | 1 <= k <= |gains| :: PrefixSum(gains, k) <= 0
  {
    var r := PrefixChoice(gains);
    if r.1 >= 0 {
      var k := r.1 + 1;
      assert 1 <= k <= |gains| && PrefixSum(gains, k) > 0;
    } else {
      assert r.0 == 0;
    }
  }

  /** The rollback loop: accumulate the gains and keep the first strictly larger total. */
  method BestPrefix(gains: seq<int>) returns (maxGain: int, bestK: int)
    ensures (maxGain, bestK) == PrefixChoice(gains)
  {
    maxGain, bestK := 0, -1;
    var cumulative := 0;
    for i := 0 to |gains|
      invariant cumulative == Sum(gains[..i])
      invariant (maxGain, bestK) == PrefixChoice(gains[..i])
    {
      assert gains[..i + 1][..i] == gains[..i];
      cumulative := cumulative + gains[i];
      if cumulative > maxGain {
        maxGain, bestK := cumulative, i;
      }
    }
    assert gains[..|gains|] == gains;
  }

  /** Apply the first n exchanges to the committed partition, in order. */
  method Commit(p: Bipartition, swaps: seq<Exchange>, n: nat) returns (q: Bipartition)
    requires n <= |swaps|
    ensures q == ApplySwaps(p, swaps[..n])
  {
    q := p;
    assert swaps[..0] == [];
    for i := 0 to n
      invariant q == ApplySwaps(p, swaps[..i])
    {
      ApplySwapsSnoc(p, swaps, i);
      q := Swap(q, swaps[i].a, swaps[i].b);
    }
  }

  // ---------------------------------------------------------------------------
  // Whole passes
  // ---------------------------------------------------------------------------

  /**
   * The two pass engines: the classic one keeps D equal to the D of the tentative
   * partition by patching it; the patience variant scores a whole pass with the D
   * table of the pass start.
   */
  datatype Engine = Classic | PassStartD

  function PolicyFor(e: Engine, g: Graph, p: Bipartition): DPolicy
  {
    if e == Classic then Recomputed else PassStart(DValues(g, p))
  }

  /** The exchanges a pass of engine `e` locks from `p`. */
  function PassSwaps(g: Graph, e: Engine, p: Bipartition): seq<Exchange>
  {
    LockSeq(g, PolicyFor(e, g, p), p)
  }

  /** How many of them the rollback rule commits: 0 when the pass converges. */
  function CommitCount(g: Graph, e: Engine, p: Bipartition): nat
  {
    PrefixChoice(Gains(PassSwaps(g, e, p))).1 + 1
  }

  /** The committed partition after one pass from `p`. */
  function AfterPass(g: Graph, e: Engine, p: Bipartition): (q: Bipartition)
    requires Valid(p)
    ensures Valid(q)
  {
    CommitPrefix(g, PolicyFor(e, g, p), p, CommitCount(g, e, p));
    ApplySwaps(p, PassSwaps(g, e, p)[..CommitCount(g, e, p)])
  }

  /** A pass keeps the side sizes and the set of partitioned nodes. */
  lemma {:induction false} AfterPassShape(g: Graph, e: Engine, p: Bipartition)
    requires Valid(p)
    ensures SameShape(p, AfterPass(g, e, p))
  {
    CommitPrefix(g, PolicyFor(e, g, p), p, CommitCount(g, e, p));
  }

  /** A pass changes nothing exactly when no prefix of its exchanges has positive cumulative gain. */
  lemma {:induction false} AfterPassConverged(g: Graph, e: Engine, p: Bipartition)
    requires Valid(p)
    ensures var s := PassSwaps(g, e, p);
      CommitCount(g, e, p) == 0 <==> forall k | 1 <= k <= |s| :: PrefixSum(Gains(s), k) <= 0
    ensures CommitCount(g, e, p) == 0 ==> AfterPass(g, e, p) == p
  {
    var s := PassSwaps(g, e, p);
    PrefixChoiceNone(Gains(s));
    assert s[..0] == [];
  }

  /**
   * A classic pass that commits anything makes the cut strictly smaller, by at
   * least the largest cumulative gain.
   */
  lemma {:induction false} AfterPassImproves(g: Graph, p: Bipartition)
    requires Valid(p) && CommitCount(g, Classic, p) > 0
    ensures CutSize(g, AfterPass(g, Classic, p))
         <= CutSize(g, p) - PrefixChoice(Gains(PassSwaps(g, Classic, p))).0 < CutSize(g, p)
  {
    CommitPrefix(g, Recomputed, p, CommitCount(g, Classic, p));
  }

  /** What the loops of one pass compute, read through the pass functions. */
  lemma {:induction false} PassLoopFacts(g: Graph, e: Engine, p: Bipartition, swaps: seq<Exchange>, maxGain: int, bestK: int)
    requires Valid(p) && swaps == PassSwaps(g, e, p)
    requires (maxGain, bestK) == PrefixChoice(Gains(swaps))
    ensures 0 <= bestK + 1 <= |swaps|
    ensures CommitCount(g, e, p) == bestK + 1
    ensures maxGain > 0 <==> CommitCount(g, e, p) > 0
    ensures ApplySwaps(p, swaps[..bestK + 1]) == AfterPass(g, e, p)
  {
    var n := CommitCount(g, e, p);
    assert n == bestK + 1;
    assert AfterPass(g, e, p) == ApplySwaps(p, PassSwaps(g, e, p)[..n]);
  }

  /**
   * One whole pass of engine e from the committed partition p: the locking search,
   * the rollback scan and the commit of the best prefix (nothing when no prefix has
   * positive cumulative gain).
   */
  method RunPass(g: Graph, e: Engine, p: Bipartition) returns (maxGain: int, count: nat, q: Bipartition)
    requires Valid(p)
    ensures maxGain == PrefixChoice(Gains(PassSwaps(g, e, p))).0
    ensures count == CommitCount(g, e, p) && (maxGain > 0 <==> count > 0)
    ensures q == AfterPass(g, e, p)
  {
    var swaps;
    if e == Classic {
      swaps := LockingSearch(g, p);
    } else {
      swaps := LockingSearchStale(g, p);
    }
    var bestK;
    maxGain, bestK := BestPrefix(Gains(swaps));
    PassLoopFacts(g, e, p, swaps, maxGain, bestK);
    count := bestK + 1;
    q := Commit(p, swaps, count);
  }
}

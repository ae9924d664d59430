/**
 * The cut and gain evaluator shared by every partitioner: the weighted cut of a
 * bipartition, the D value of a node (external minus internal weighted degree),
 * and the Kernighan-Lin exchange gain D(a) + D(b) - 2 w(a, b).
 */
module CutGain {
  import opened Seqs
  import opened Graphs

  /** The two sides of a partition, each listed in its iteration order. */
  datatype Bipartition = Bipartition(A: seq<Node>, B: seq<Node>)

  /** Each side is a set (no repeats) and the sides are disjoint. */
  predicate Valid(p: Bipartition)
  {
    Distinct(p.A) && Distinct(p.B) && forall x | x in p.A :: x !in p.B
  }

  predicate Crosses(e: Edge, p: Bipartition)
  {
    (e.u in p.A && e.v in p.B) || (e.u in p.B && e.v in p.A)
  }

  function CutIn(es: seq<Edge>, p: Bipartition): nat
  {
    if es == [] then 0
    else (if Crosses(es[0], p) then es[0].w else 0) + CutIn(es[1..], p)
  }

  /** Total weight of the edges with one endpoint in A and the other in B. */
  function CutSize(g: Graph, p: Bipartition): nat
  {
    CutIn(g.edges, p)
  }

  /** `y` lies on the side opposite to the one `x` is counted on. */
  predicate Opposite(p: Bipartition, x: Node, y: Node)
  {
    if x in p.A then y in p.B else y in p.A
  }

  /** `y` lies on the side `x` is counted on. */
  predicate SameSide(p: Bipartition, x: Node, y: Node)
  {
    if x in p.A then y in p.A else y in p.B
  }

  predicate Incident(e: Edge, x: Node)
  {
    e.u == x || e.v == x
  }

  /** The neighbour that edge `e` gives `x`. */
  function Across(e: Edge, x: Node): Node
  {
    if e.u == x then e.v else e.u
  }

  /** The weight `e` adds to E(x): it leads from `x` to the opposite side. */
  function ExternalPart(e: Edge, p: Bipartition, x: Node): nat
  {
    if Incident(e, x) && Opposite(p, x, Across(e, x)) then e.w else 0
  }

  /** The weight `e` adds to I(x): it leads from `x` to its own side. */
  function InternalPart(e: Edge, p: Bipartition, x: Node): nat
  {
    if Incident(e, x) && !Opposite(p, x, Across(e, x)) && SameSide(p, x, Across(e, x)) then e.w else 0
  }

  function ExternalIn(es: seq<Edge>, p: Bipartition, x: Node): nat
  {
    if es == [] then 0 else ExternalPart(es[0], p, x) + ExternalIn(es[1..], p, x)
  }

  function InternalIn(es: seq<Edge>, p: Bipartition, x: Node): nat
  {
    if es == [] then 0 else InternalPart(es[0], p, x) + InternalIn(es[1..], p, x)
  }

  /** D(x) = E(x) - I(x) for the side `x` is counted on. */
  function DValue(g: Graph, p: Bipartition, x: Node): int
  {
    ExternalIn(g.edges, p, x) - InternalIn(g.edges, p, x)
  }

  /** The D-value table: one entry for every node listed in A or B. */
  function DValues(g: Graph, p: Bipartition): (d: map<Node, int>)
    ensures forall x | x in p.A || x in p.B :: x in d && d[x] == DValue(g, p, x)
    ensures forall x | x in d :: x in p.A || x in p.B
  {
    map x | x in p.A + p.B :: DValue(g, p, x)
  }

  /** The gain of exchanging `a` and `b` under the D table `d`. */
  function Gain(g: Graph, d: map<Node, int>, a: Node, b: Node): int
    requires a in d && b in d
  {
    d[a] + d[b] - 2 * Weight(g, a, b)
  }

  /** Exchange `a` (from A) and `b` (from B): set.remove then set.add on each side. */
  function Swap(p: Bipartition, a: Node, b: Node): Bipartition
  {
    Bipartition(Remove(p.A, a) + [b], Remove(p.B, b) + [a])
  }

  /** Move the single node `x` to the other side. */
  function Move(p: Bipartition, x: Node): Bipartition
  {
    if x in p.A then Bipartition(Remove(p.A, x), p.B + [x])
    else Bipartition(p.A + [x], Remove(p.B, x))
  }

  // ---------------------------------------------------------------------------
  // Membership after an exchange
  // ---------------------------------------------------------------------------

  lemma {:induction false} SwapMembers(p: Bipartition, a: Node, b: Node, x: Node)
    ensures x in Swap(p, a, b).A <==> (x in p.A && x != a) || x == b
    ensures x in Swap(p, a, b).B <==> (x in p.B && x != b) || x == a
  {
  }

  /**
   * An exchange keeps a valid bipartition valid, keeps both side sizes and the
   * set of partitioned nodes.
   */
  lemma {:induction false} SwapShape(p: Bipartition, a: Node, b: Node)
    requires Valid(p) && a in p.A && b in p.B
    ensures Valid(Swap(p, a, b))
    ensures |Swap(p, a, b).A| == |p.A| && |Swap(p, a, b).B| == |p.B|
    ensures forall x :: (x in Swap(p, a, b).A || x in Swap(p, a, b).B) <==> (x in p.A || x in p.B)
  {
    var q := Swap(p, a, b);
    forall x ensures (x in q.A || x in q.B) <==> (x in p.A || x in p.B) {
      SwapMembers(p, a, b, x);
    }
    assert Distinct(q.A) by {
      var r := Remove(p.A, a);
      assert b !in r;
      forall i, j | 0 <= i < j < |q.A| ensures q.A[i] != q.A[j] {
        if j == |r| {
          assert q.A[i] == r[i];
        } else {
          assert q.A[i] == r[i] && q.A[j] == r[j];
        }
      }
    }
    assert Distinct(q.B) by {
      var r := Remove(p.B, b);
      assert a !in r;
      forall i, j | 0 <= i < j < |q.B| ensures q.B[i] != q.B[j] {
        if j == |r| {
          assert q.B[i] == r[i];
        } else {
          assert q.B[i] == r[i] && q.B[j] == r[j];
        }
      }
    }
    forall x | x in q.A ensures x !in q.B {
      SwapMembers(p, a, b, x);
    }
  }

  // ---------------------------------------------------------------------------
  // Cut size: symmetric, zero on an empty side
  // ---------------------------------------------------------------------------

  lemma {:induction false} CutInSymmetric(es: seq<Edge>, A: seq<Node>, B: seq<Node>)
    ensures CutIn(es, Bipartition(A, B)) == CutIn(es, Bipartition(B, A))
    decreases |es|
  {
    if es != [] {
      CutInSymmetric(es[1..], A, B);
    }
  }

  lemma {:induction false} CutInEmptySide(es: seq<Edge>, p: Bipartition)
    requires p.A == [] || p.B == []
    ensures CutIn(es, p) == 0
    decreases |es|
  {
    if es != [] {
      CutInEmptySide(es[1..], p);
    }
  }

  /** The cut does not depend on which side is called A, and is 0 when a side is empty. */
  lemma {:induction false} CutSizeSpec(g: Graph, A: seq<Node>, B: seq<Node>)
    ensures CutSize(g, Bipartition(A, B)) == CutSize(g, Bipartition(B, A))
    ensures A == [] || B == [] ==> CutSize(g, Bipartition(A, B)) == 0
  {
    CutInSymmetric(g.edges, A, B);
    if A == [] || B == [] {
      CutInEmptySide(g.edges, Bipartition(A, B));
    }
  }

  // ---------------------------------------------------------------------------
  // D values
  // ---------------------------------------------------------------------------

  lemma {:induction false} DInNoPartitionedNeighbor(es: seq<Edge>, p: Bipartition, x: Node)
    requires forall e | e in es && Incident(e, x) :: Across(e, x) !in p.A && Across(e, x) !in p.B
    ensures ExternalIn(es, p, x) == 0 && InternalIn(es, p, x) == 0
    decreases |es|
  {
    if es != [] {
      assert es[0] in es;
      assert forall e | e in es[1..] :: e in es;
      DInNoPartitionedNeighbor(es[1..], p, x);
    }
  }

  /**
   * Neighbours outside A and B contribute nothing to D, so a node none of whose
   * neighbours is partitioned (an isolated node in particular) has D = 0.
   */
  lemma {:induction false} DValueNoPartitionedNeighbor(g: Graph, p: Bipartition, x: Node)
    requires forall e | e in g.edges && Incident(e, x) :: Across(e, x) !in p.A && Across(e, x) !in p.B
    ensures DValue(g, p, x) == 0
  {
    DInNoPartitionedNeighbor(g.edges, p, x);
  }

  lemma {:induction false} EdgeMove(e: Edge, p: Bipartition, x: Node)
    requires Valid(p) && (x in p.A || x in p.B)
    ensures (if Crosses(e, Move(p, x)) then e.w else 0)
         == (if Crosses(e, p) then e.w else 0) - (ExternalPart(e, p, x) - InternalPart(e, p, x))
            - (if Joins(e, x, x) then e.w else 0)
  {
  }

  lemma {:induction false} MoveIn(es: seq<Edge>, p: Bipartition, x: Node)
    requires Valid(p) && (x in p.A || x in p.B)
    ensures CutIn(es, Move(p, x))
         == CutIn(es, p) - (ExternalIn(es, p, x) - InternalIn(es, p, x)) - WeightIn(es, x, x)
    decreases |es|
  {
    if es != [] {
      EdgeMove(es[0], p, x);
      MoveIn(es[1..], p, x);
    }
  }

  /** Without self-loops a node has no self weight. */
  lemma {:induction false} NoSelfWeight(g: Graph, x: Node)
    requires NoSelfLoops(g)
    ensures Weight(g, x, x) == 0
  {
    WeightInMissing(g.edges, x, x);
  }

  /**
   * What D means: moving the single node `x` to the other side lowers the cut by
   * exactly D(x), plus the weight of a self-loop at `x`, which D counts as
   * internal although it never crosses the cut.
   */
  lemma {:induction false} MoveIdentity(g: Graph, p: Bipartition, x: Node)
    requires Valid(p) && (x in p.A || x in p.B)
    ensures CutSize(g, Move(p, x)) == CutSize(g, p) - DValue(g, p, x) - Weight(g, x, x)
    ensures NoSelfLoops(g) ==> CutSize(g, Move(p, x)) == CutSize(g, p) - DValue(g, p, x)
  {
    MoveIn(g.edges, p, x);
    if NoSelfLoops(g) {
      NoSelfWeight(g, x);
    }
  }

  // ---------------------------------------------------------------------------
  // The Kernighan-Lin swap identity
  // ---------------------------------------------------------------------------

  lemma {:induction false} EdgeSwap(e: Edge, p: Bipartition, a: Node, b: Node)
    requires a in p.A && b in p.B && (forall x | x in p.A :: x !in p.B)
    ensures (if Crosses(e, Swap(p, a, b)) then e.w else 0)
         == (if Crosses(e, p) then e.w else 0)
            - (ExternalPart(e, p, a) - InternalPart(e, p, a)
               + ExternalPart(e, p, b) - InternalPart(e, p, b)
               - 2 * (if Joins(e, a, b) then e.w else 0))
            - (if Joins(e, a, a) then e.w else 0) - (if Joins(e, b, b) then e.w else 0)
  {
    SwapMembers(p, a, b, e.u);
    SwapMembers(p, a, b, e.v);
  }

  lemma {:induction false} SwapIn(es: seq<Edge>, p: Bipartition, a: Node, b: Node)
    requires a in p.A && b in p.B && (forall x | x in p.A :: x !in p.B)
    ensures CutIn(es, Swap(p, a, b))
         == CutIn(es, p)
            - (ExternalIn(es, p, a) - InternalIn(es, p, a)
               + ExternalIn(es, p, b) - InternalIn(es, p, b)
               - 2 * WeightIn(es, a, b))
            - WeightIn(es, a, a) - WeightIn(es, b, b)
    decreases |es|
  {
    if es != [] {
      EdgeSwap(es[0], p, a, b);
      SwapIn(es[1..], p, a, b);
    }
  }

  /**
   * Kernighan & Lin (1970): exchanging a in A with b in B lowers the cut by exactly
   * D(a) + D(b) - 2 w(a, b), where a missing edge weighs 0.  A self-loop at a or b
   * is counted in D as internal weight but never crosses the cut, so it adds its
   * weight to the reduction.
   */
  lemma {:induction false} SwapIdentity(g: Graph, p: Bipartition, a: Node, b: Node)
    requires Valid(p) && a in p.A && b in p.B
    ensures CutSize(g, Swap(p, a, b))
         == CutSize(g, p) - (DValue(g, p, a) + DValue(g, p, b) - 2 * Weight(g, a, b))
            - Weight(g, a, a) - Weight(g, b, b)
    ensures NoSelfLoops(g) ==>
      CutSize(g, Swap(p, a, b)) == CutSize(g, p) - (DValue(g, p, a) + DValue(g, p, b) - 2 * Weight(g, a, b))
  {
    SwapIn(g.edges, p, a, b);
    if NoSelfLoops(g) {
      NoSelfWeight(g, a);
      NoSelfWeight(g, b);
    }
  }

  /** The same identity read off a D table that agrees with the partition. */
  lemma {:induction false} SwapGain(g: Graph, p: Bipartition, d: map<Node, int>, a: Node, b: Node)
    requires Valid(p) && a in p.A && b in p.B
    requires a in d && b in d && d[a] == DValue(g, p, a) && d[b] == DValue(g, p, b)
    ensures CutSize(g, Swap(p, a, b)) == CutSize(g, p) - Gain(g, d, a, b) - Weight(g, a, a) - Weight(g, b, b)
  {
    SwapIdentity(g, p, a, b);
  }

  // ---------------------------------------------------------------------------
  // The incremental D update of a KL pass
  // ---------------------------------------------------------------------------

  lemma {:induction false} EdgePatch(e: Edge, p: Bipartition, a: Node, b: Node, x: Node)
    requires a in p.A && b in p.B && (forall y | y in p.A :: y !in p.B)
    requires x != a && x != b && (x in p.A || x in p.B)
    ensures ExternalPart(e, Swap(p, a, b), x) - InternalPart(e, Swap(p, a, b), x)
         == ExternalPart(e, p, x) - InternalPart(e, p, x)
            + (if x in p.A
               then 2 * (if Joins(e, x, a) then e.w else 0) - 2 * (if Joins(e, x, b) then e.w else 0)
               else 2 * (if Joins(e, x, b) then e.w else 0) - 2 * (if Joins(e, x, a) then e.w else 0))
  {
    SwapMembers(p, a, b, x);
    SwapMembers(p, a, b, e.u);
    SwapMembers(p, a, b, e.v);
  }

  lemma {:induction false} PatchIn(es: seq<Edge>, p: Bipartition, a: Node, b: Node, x: Node)
    requires a in p.A && b in p.B && (forall y | y in p.A :: y !in p.B)
    requires x != a && x != b && (x in p.A || x in p.B)
    ensures ExternalIn(es, Swap(p, a, b), x) - InternalIn(es, Swap(p, a, b), x)
         == ExternalIn(es, p, x) - InternalIn(es, p, x)
            + (if x in p.A
               then 2 * WeightIn(es, x, a) - 2 * WeightIn(es, x, b)
               else 2 * WeightIn(es, x, b) - 2 * WeightIn(es, x, a))
    decreases |es|
  {
    if es != [] {
      EdgePatch(es[0], p, a, b, x);
      PatchIn(es[1..], p, a, b, x);
    }
  }

  /**
   * The KL patch is exact: after a and b change sides, the D value of any other
   * partitioned node u equals its old value plus 2w(u,a) - 2w(u,b) when u is in A,
   * and plus 2w(u,b) - 2w(u,a) when u is in B.
   */
  lemma {:induction false} PatchIdentity(g: Graph, p: Bipartition, a: Node, b: Node, x: Node)
    requires Valid(p) && a in p.A && b in p.B
    requires x != a && x != b && (x in p.A || x in p.B)
    ensures x in p.A ==>
      DValue(g, Swap(p, a, b), x) == DValue(g, p, x) + 2 * Weight(g, x, a) - 2 * Weight(g, x, b)
    ensures x in p.B ==>
      DValue(g, Swap(p, a, b), x) == DValue(g, p, x) + 2 * Weight(g, x, b) - 2 * Weight(g, x, a)
  {
    PatchIn(g.edges, p, a, b, x);
  }
}

/**
 * The weighted undirected graph the partitioners read: a node list in insertion
 * order and an edge list in the order edges were first added.  The adjacency
 * order of a node (the order a breadth-first search visits its neighbours) is the
 * order of its incident edges in that list.
 */
module Graphs {
  import opened Seqs

  type Node = string

  datatype Edge = Edge(u: Node, v: Node, w: nat)

  datatype Graph = Graph(nodes: seq<Node>, edges: seq<Edge>)

  /** Edge `e` connects `x` and `y`, in either orientation. */
  predicate Joins(e: Edge, x: Node, y: Node)
  {
    (e.u == x && e.v == y) || (e.u == y && e.v == x)
  }

  /**
   * What a simple graph guarantees: nodes are unique, every edge endpoint is a
   * node, and no unordered pair carries two edges.
   */
  ghost predicate WellFormed(g: Graph)
  {
    && Distinct(g.nodes)
    && (forall e | e in g.edges :: e.u in g.nodes && e.v in g.nodes)
    && PairsUnique(g.edges)
  }

  predicate NoSelfLoops(g: Graph)
  {
    forall e | e in g.edges :: e.u != e.v
  }

  /** Total weight of the edges joining `x` and `y` in `es`; 0 when there is none. */
  function WeightIn(es: seq<Edge>, x: Node, y: Node): nat
  {
    if es == [] then 0
    else (if Joins(es[0], x, y) then es[0].w else 0) + WeightIn(es[1..], x, y)
  }

  /** The weight of the edge between `x` and `y`, read as 0 when the edge is missing. */
  function Weight(g: Graph, x: Node, y: Node): nat
  {
    WeightIn(g.edges, x, y)
  }

  predicate HasEdgeIn(es: seq<Edge>, x: Node, y: Node)
  {
    exists e | e in es :: Joins(e, x, y)
  }

  /** The other endpoints of the edges at `x`, in edge order. */
  function NeighborsIn(es: seq<Edge>, x: Node): seq<Node>
  {
    if es == [] then []
    else
      (if es[0].u == x then [es[0].v] else if es[0].v == x then [es[0].u] else [])
      + NeighborsIn(es[1..], x)
  }

  function Neighbors(g: Graph, x: Node): seq<Node>
  {
    NeighborsIn(g.edges, x)
  }

  /** No unordered pair is joined by two edges of `es`. */
  ghost predicate PairsUnique(es: seq<Edge>)
  {
    forall i, j | 0 <= i < j < |es| :: !Joins(es[j], es[i].u, es[i].v)
  }

  lemma {:induction false} TailFacts(es: seq<Edge>, x: Node, y: Node)
    requires es != []
    ensures es == [es[0]] + es[1..]
    ensures HasEdgeIn(es, x, y) <==> Joins(es[0], x, y) || HasEdgeIn(es[1..], x, y)
  {
    assert es == [es[0]] + es[1..];
    assert forall e | e in es[1..] :: e in es;
    assert forall e | e in es :: e == es[0] || e in es[1..];
  }

  lemma {:induction false} UniqueTail(es: seq<Edge>)
    requires es != [] && PairsUnique(es)
    ensures PairsUnique(es[1..])
    ensures !HasEdgeIn(es[1..], es[0].u, es[0].v)
  {
    forall e | e in es[1..]
      ensures !Joins(e, es[0].u, es[0].v)
    {
      var j :| 0 <= j < |es[1..]| && es[1..][j] == e;
      assert es[j + 1] == e;
    }
    forall i, j | 0 <= i < j < |es[1..]|
      ensures !Joins(es[1..][j], es[1..][i].u, es[1..][i].v)
    {
      assert es[1..][j] == es[j + 1] && es[1..][i] == es[i + 1];
    }
  }

  lemma {:induction false} NeighborsInSpec(es: seq<Edge>, x: Node, y: Node)
    ensures y in NeighborsIn(es, x) <==> HasEdgeIn(es, x, y)
    decreases |es|
  {
    if es != [] {
      NeighborsInSpec(es[1..], x, y);
      TailFacts(es, x, y);
    }
  }

  /** `y` is adjacent to `x` exactly when some edge joins them. */
  lemma {:induction false} NeighborsSpec(g: Graph, x: Node, y: Node)
    ensures y in Neighbors(g, x) <==> HasEdgeIn(g.edges, x, y)
  {
    NeighborsInSpec(g.edges, x, y);
  }

  lemma {:induction false} WeightInSymmetric(es: seq<Edge>, x: Node, y: Node)
    ensures WeightIn(es, x, y) == WeightIn(es, y, x)
    decreases |es|
  {
    if es != [] {
      WeightInSymmetric(es[1..], x, y);
    }
  }

  lemma {:induction false} WeightInMissing(es: seq<Edge>, x: Node, y: Node)
    requires !HasEdgeIn(es, x, y)
    ensures WeightIn(es, x, y) == 0
    decreases |es|
  {
    if es != [] {
      TailFacts(es, x, y);
      WeightInMissing(es[1..], x, y);
    }
  }

  lemma {:induction false} WeightInUnique(es: seq<Edge>, k: nat)
    requires k < |es| && PairsUnique(es)
    ensures WeightIn(es, es[k].u, es[k].v) == es[k].w
    decreases |es|
  {
    UniqueTail(es);
    if k == 0 {
      WeightInMissing(es[1..], es[0].u, es[0].v);
    } else {
      assert !Joins(es[k], es[0].u, es[0].v);
      assert es[1..][k - 1] == es[k];
      WeightInUnique(es[1..], k - 1);
    }
  }

  /**
   * The weight lookup of the partitioners: symmetric, 0 for a missing edge, and the
   * stored weight of the edge joining the pair in a well-formed graph.
   */
  lemma {:induction false} WeightSpec(g: Graph, x: Node, y: Node)
    ensures Weight(g, x, y) == Weight(g, y, x)
    ensures !HasEdgeIn(g.edges, x, y) ==> Weight(g, x, y) == 0
    ensures WellFormed(g) ==>
      forall e | e in g.edges && Joins(e, x, y) :: Weight(g, x, y) == e.w
  {
    WeightInSymmetric(g.edges, x, y);
    if !HasEdgeIn(g.edges, x, y) {
      WeightInMissing(g.edges, x, y);
    }
    if WellFormed(g) {
      forall e | e in g.edges && Joins(e, x, y)
        ensures Weight(g, x, y) == e.w
      {
        var k :| 0 <= k < |g.edges| && g.edges[k] == e;
        WeightInUnique(g.edges, k);
        WeightInSymmetric(g.edges, e.u, e.v);
      }
    }
  }

  // ---------------------------------------------------------------------------
  // Graph.add_edge: the only way the netlist parser changes a graph.
  // ---------------------------------------------------------------------------

  function AddNode(ns: seq<Node>, x: Node): (r: seq<Node>)
    ensures forall y :: y in r <==> y in ns || y == x
    ensures Distinct(ns) ==> Distinct(r)
  {
    if x in ns then ns else ns + [x]
  }

  /** Overwrite the weight of the edge joining `u` and `v`, or append a new edge. */
  function SetWeight(es: seq<Edge>, u: Node, v: Node, w: nat): (r: seq<Edge>)
    ensures |r| == if HasEdgeIn(es, u, v) then |es| else |es| + 1
    ensures forall e | e in r :: e in es || e == Edge(u, v, w) || (Joins(e, u, v) && e.w == w)
    ensures forall e | e in es && !Joins(e, u, v) :: e in r
    decreases |es|
  {
    if es == [] then [Edge(u, v, w)]
    else if Joins(es[0], u, v) then [es[0].(w := w)] + es[1..]
    else
      TailFacts(es, u, v);
      [es[0]] + SetWeight(es[1..], u, v, w)
  }

  /** networkx's add_edge(u, v, weight=w): adds missing endpoints, then sets the weight. */
  function AddEdge(g: Graph, u: Node, v: Node, w: nat): Graph
  {
    Graph(AddNode(AddNode(g.nodes, u), v), SetWeight(g.edges, u, v, w))
  }

  lemma {:induction false} SetWeightHeadUnique(es: seq<Edge>, u: Node, v: Node, w: nat)
    requires es != [] && PairsUnique(es) && Joins(es[0], u, v)
    ensures PairsUnique(SetWeight(es, u, v, w))
  {
    var r := SetWeight(es, u, v, w);
    assert r == [es[0].(w := w)] + es[1..];
    forall i, j | 0 <= i < j < |r|
      ensures !Joins(r[j], r[i].u, r[i].v)
    {
      assert r[j] == es[j];
      assert r[i].u == es[i].u && r[i].v == es[i].v;
    }
  }

  lemma {:induction false} ConsUnique(e: Edge, r: seq<Edge>)
    requires PairsUnique(r)
    requires forall f | f in r :: !Joins(f, e.u, e.v)
    ensures PairsUnique([e] + r)
  {
    var s := [e] + r;
    forall i, j | 0 <= i < j < |s|
      ensures !Joins(s[j], s[i].u, s[i].v)
    {
      assert s[j] == r[j - 1];
      if i > 0 {
        assert s[i] == r[i - 1];
      }
    }
  }

  lemma {:induction false} SetWeightUnique(es: seq<Edge>, u: Node, v: Node, w: nat)
    requires PairsUnique(es)
    ensures PairsUnique(SetWeight(es, u, v, w))
    decreases |es|
  {
    if es != [] {
      if Joins(es[0], u, v) {
        SetWeightHeadUnique(es, u, v, w);
      } else {
        UniqueTail(es);
        SetWeightUnique(es[1..], u, v, w);
        var r' := SetWeight(es[1..], u, v, w);
        forall f | f in r'
          ensures !Joins(f, es[0].u, es[0].v)
        {
          if f in es[1..] {
          } else {
            assert Joins(f, u, v);
          }
        }
        ConsUnique(es[0], r');
      }
    }
  }

  lemma {:induction false} SetWeightWeight(es: seq<Edge>, u: Node, v: Node, w: nat, x: Node, y: Node)
    requires PairsUnique(es)
    ensures WeightIn(SetWeight(es, u, v, w), x, y) ==
      if Joins(Edge(u, v, w), x, y) then w else WeightIn(es, x, y)
    decreases |es|
  {
    if es != [] {
      UniqueTail(es);
      if Joins(es[0], u, v) {
        assert SetWeight(es, u, v, w)[1..] == es[1..];
        if Joins(Edge(u, v, w), x, y) {
          WeightInMissing(es[1..], x, y);
        }
      } else {
        SetWeightWeight(es[1..], u, v, w, x, y);
      }
    }
  }

  /**
   * add_edge keeps the graph simple, adds exactly the endpoints (appending u, then
   * v, when new, after the existing nodes, which keep their order), sets the weight
   * of the pair to `w` whether or not the edge existed, leaves every other pair's
   * weight alone, and adds an edge only when the pair was not yet connected.
   */
  lemma {:induction false} AddEdgeSpec(g: Graph, u: Node, v: Node, w: nat)
    requires WellFormed(g)
    ensures var g' := AddEdge(g, u, v, w);
      && WellFormed(g')
      && (forall x :: x in g'.nodes <==> x in g.nodes || x == u || x == v)
      && g'.nodes == g.nodes + (if u in g.nodes then [] else [u]) + (if v in g.nodes || v == u then [] else [v])
      && Weight(g', u, v) == w
      && (forall x, y | !Joins(Edge(u, v, w), x, y) :: Weight(g', x, y) == Weight(g, x, y))
      && |g'.edges| == if HasEdgeIn(g.edges, u, v) then |g.edges| else |g.edges| + 1
  {
    var g' := AddEdge(g, u, v, w);
    SetWeightUnique(g.edges, u, v, w);
    SetWeightWeight(g.edges, u, v, w, u, v);
    forall x, y | !Joins(Edge(u, v, w), x, y)
      ensures Weight(g', x, y) == Weight(g, x, y)
    {
      SetWeightWeight(g.edges, u, v, w, x, y);
    }
  }
}

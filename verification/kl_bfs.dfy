/**
 * The breadth-first initial split: visit the graph breadth-first from a start
 * node, put the first half of the node count (in visit order) on side A and the
 * rest of the visited nodes on side B, then run the classic Kernighan-Lin passes
 * from that split.
 */
module KlBfs {
  import opened Seqs
  import opened Graphs
  import opened CutGain
  import opened KlPass
  import opened KlClassic

  // ---------------------------------------------------------------------------
  // Breadth-first visit order
  // ---------------------------------------------------------------------------

  /** Every endpoint of an edge, and the start node: what a visit can reach. */
  function Universe(g: Graph, s: Node): set<Node>
  {
    (set e | e in g.edges :: e.u) + (set e | e in g.edges :: e.v) + {s}
  }

  lemma {:induction false} NeighborsInUniverse(g: Graph, s: Node, x: Node)
    ensures forall y | y in Neighbors(g, x) :: y in Universe(g, s)
  {
    forall y | y in Neighbors(g, x)
      ensures y in Universe(g, s)
    {
      NeighborsSpec(g, x, y);
      var e :| e in g.edges && Joins(e, x, y);
    }
  }

  /** Append the entries of `ns` not yet listed, in order, each once. */
  function Enqueue(order: seq<Node>, ns: seq<Node>): (r: seq<Node>)
    ensures |r| >= |order| && r[..|order|] == order
    ensures forall x :: x in r <==> x in order || x in ns
    ensures Distinct(order) ==> Distinct(r)
    decreases |ns|
  {
    if ns == [] then order
    else if ns[0] in order then Enqueue(order, ns[1..])
    else
      assert Distinct(order) ==> Distinct(order + [ns[0]]);
      var r := Enqueue(order + [ns[0]], ns[1..]);
      assert r[..|order|] == (r[..|order| + 1])[..|order|];
      r
  }

  /**
   * The visit order, with `order` both the nodes found so far and the queue: the
   * nodes before `head` have had their neighbours enqueued.
   */
  function BfsFrom(g: Graph, s: Node, order: seq<Node>, head: nat): seq<Node>
    requires head <= |order| && Distinct(order)
    requires forall x | x in order :: x in Universe(g, s)
    decreases |Universe(g, s)| - |order|, |order| - head
  {
    if head == |order| then order
    else
      var next := Enqueue(order, Neighbors(g, order[head]));
      NeighborsInUniverse(g, s, order[head]);
      DistinctCard(next, Universe(g, s));
      assert |next| == |order| ==> next == next[..|order|];
      BfsFrom(g, s, next, head + 1)
  }

  /** The breadth-first visit order from `s`, as networkx's bfs_tree lists its nodes. */
  function BfsOrder(g: Graph, s: Node): seq<Node>
  {
    BfsFrom(g, s, [s], 0)
  }

  /** The node at index k is a neighbour of a node listed before it. */
  ghost predicate FoundFrom(g: Graph, r: seq<Node>, k: nat)
    requires k < |r|
  {
    exists i | 0 <= i < k :: r[k] in Neighbors(g, r[i])
  }

  /** Every listed node after the first is a neighbour of an earlier one. */
  ghost predicate Discovered(g: Graph, r: seq<Node>)
  {
    forall k | 0 < k < |r| :: FoundFrom(g, r, k)
  }

  /** Every neighbour of a listed node is listed. */
  ghost predicate Closed(g: Graph, r: seq<Node>)
  {
    forall x, y | x in r && y in Neighbors(g, x) :: y in r
  }

  /** A walk along edges: each node is a neighbour of the one before. */
  ghost predicate IsPath(g: Graph, path: seq<Node>)
  {
    |path| >= 1 && forall i | 0 <= i < |path| - 1 :: path[i + 1] in Neighbors(g, path[i])
  }

  ghost predicate Reachable(g: Graph, s: Node, x: Node)
  {
    exists path :: IsPath(g, path) && path[0] == s && path[|path| - 1] == x
  }

  /**
   * The least index j in [i, k) whose node has r[k] as a neighbour, or k when
   * there is none.
   */
  ghost function FirstAdjacent(g: Graph, r: seq<Node>, k: nat, i: nat): (j: nat)
    requires k < |r| && i <= k
    ensures i <= j <= k
    ensures j < k ==> r[k] in Neighbors(g, r[j])
    ensures forall j' | i <= j' < j :: r[k] !in Neighbors(g, r[j'])
    decreases k - i
  {
    if i == k then k
    else if r[k] in Neighbors(g, r[i]) then i
    else FirstAdjacent(g, r, k, i + 1)
  }

  /** The index of the first listed node that has r[k] as a neighbour: the node a
      breadth-first visit finds r[k] from. */
  ghost function Parent(g: Graph, r: seq<Node>, k: nat): nat
    requires k < |r|
  {
    FirstAdjacent(g, r, k, 0)
  }

  /** Breadth-first order: nodes are listed in the order of the nodes they are
      found from, so all the new neighbours of one node come before those of a
      node expanded after it. */
  ghost predicate LevelOrder(g: Graph, r: seq<Node>)
  {
    forall k, k' | 0 < k < k' < |r| :: Parent(g, r, k) <= Parent(g, r, k')
  }

  ghost predicate BfsInv(g: Graph, s: Node, order: seq<Node>, head: nat)
  {
    && |order| >= 1 && order[0] == s && head <= |order| && Distinct(order)
    && (forall x | x in order :: x in Universe(g, s))
    && Discovered(g, order)
    && (forall i, y | 0 <= i < head && y in Neighbors(g, order[i]) :: y in order)
    && (forall k | 0 < k < |order| :: Parent(g, order, k) < head)
    && LevelOrder(g, order)
  }

  /** The search for a first neighbour looks only at the nodes up to index k. */
  lemma {:induction false} FirstAdjacentPrefix(g: Graph, r: seq<Node>, r': seq<Node>, k: nat, i: nat)
    requires k < |r| <= |r'| && r'[..|r|] == r && i <= k
    ensures FirstAdjacent(g, r', k, i) == FirstAdjacent(g, r, k, i)
    decreases k - i
  {
    assert r'[k] == r[k] && r'[i] == r[i];
    if i < k && r[k] !in Neighbors(g, r[i]) {
      FirstAdjacentPrefix(g, r, r', k, i + 1);
    }
  }

  /** A node appended while expanding the head node is found from the head node. */
  lemma {:induction false} ParentOfAppended(g: Graph, order: seq<Node>, head: nat, k: nat)
    requires Distinct(order) && head < |order|
    requires forall i, y | 0 <= i < head && y in Neighbors(g, order[i]) :: y in order
    requires |order| <= k < |Enqueue(order, Neighbors(g, order[head]))|
    ensures Parent(g, Enqueue(order, Neighbors(g, order[head])), k) == head
  {
    var next := Enqueue(order, Neighbors(g, order[head]));
    EnqueueAppended(order, Neighbors(g, order[head]), k);
    assert next[head] == order[head];
    assert next[k] !in order by {
      forall j | 0 <= j < |order|
        ensures order[j] != next[k]
      {
        assert next[j] == order[j];
      }
    }
    forall j | 0 <= j < head
      ensures next[k] !in Neighbors(g, next[j])
    {
      assert next[j] == order[j];
    }
  }

  /** Expanding the head node keeps the order breadth-first, every appended node
      being found from the head node. */
  lemma {:induction false} EnqueueLevelOrder(g: Graph, order: seq<Node>, head: nat)
    requires Distinct(order) && head < |order|
    requires forall i, y | 0 <= i < head && y in Neighbors(g, order[i]) :: y in order
    requires forall k | 0 < k < |order| :: Parent(g, order, k) < head
    requires LevelOrder(g, order)
    ensures var next := Enqueue(order, Neighbors(g, order[head]));
      && (forall k | 0 < k < |next| :: Parent(g, next, k) < head + 1)
      && LevelOrder(g, next)
  {
    var next := Enqueue(order, Neighbors(g, order[head]));
    forall k | 0 < k < |next|
      ensures Parent(g, next, k) == if k < |order| then Parent(g, order, k) else head
    {
      if k < |order| {
        FirstAdjacentPrefix(g, order, next, k, 0);
      } else {
        ParentOfAppended(g, order, head, k);
      }
    }
  }

  /** An entry appended by Enqueue comes from the enqueued list. */
  lemma {:induction false} EnqueueAppended(order: seq<Node>, ns: seq<Node>, k: nat)
    requires Distinct(order) && |order| <= k < |Enqueue(order, ns)|
    ensures Enqueue(order, ns)[k] in ns
  {
    var r := Enqueue(order, ns);
    forall j | 0 <= j < |order|
      ensures order[j] != r[k]
    {
      assert r[j] == order[j];
    }
  }

  /** Enqueueing the neighbours of a listed node keeps every node discovered. */
  lemma {:induction false} EnqueueDiscovered(g: Graph, order: seq<Node>, head: nat)
    requires Distinct(order) && Discovered(g, order) && head < |order|
    ensures Discovered(g, Enqueue(order, Neighbors(g, order[head])))
  {
    var next := Enqueue(order, Neighbors(g, order[head]));
    forall k | 0 < k < |next|
      ensures FoundFrom(g, next, k)
    {
      if k < |order| {
        assert FoundFrom(g, order, k);
        var i :| 0 <= i < k && order[k] in Neighbors(g, order[i]);
        assert next[k] == order[k] && next[i] == order[i];
        assert next[k] in Neighbors(g, next[i]);
      } else {
        EnqueueAppended(order, Neighbors(g, order[head]), k);
        assert next[head] == order[head];
        assert next[k] in Neighbors(g, next[head]);
      }
    }
  }

  /** Enqueueing the neighbours of the head node extends the expanded prefix by one. */
  lemma {:induction false} EnqueueExpanded(g: Graph, order: seq<Node>, head: nat)
    requires head < |order|
    requires forall i, y | 0 <= i < head && y in Neighbors(g, order[i]) :: y in order
    ensures var next := Enqueue(order, Neighbors(g, order[head]));
      forall i, y | 0 <= i < head + 1 && y in Neighbors(g, next[i]) :: y in next
  {
    var next := Enqueue(order, Neighbors(g, order[head]));
    forall i, y | 0 <= i < head + 1 && y in Neighbors(g, next[i])
      ensures y in next
    {
      assert next[i] == order[i];
    }
  }

  /** One expansion step keeps the visit invariant. */
  lemma {:induction false} BfsStep(g: Graph, s: Node, order: seq<Node>, head: nat)
    requires BfsInv(g, s, order, head) && head < |order|
    ensures BfsInv(g, s, Enqueue(order, Neighbors(g, order[head])), head + 1)
  {
    NeighborsInUniverse(g, s, order[head]);
    EnqueueDiscovered(g, order, head);
    EnqueueExpanded(g, order, head);
    EnqueueLevelOrder(g, order, head);
  }

  lemma {:induction false} BfsFromSpec(g: Graph, s: Node, order: seq<Node>, head: nat)
    requires BfsInv(g, s, order, head)
    ensures var r := BfsFrom(g, s, order, head);
      && BfsInv(g, s, r, |r|) && |r| >= |order| && r[..|order|] == order
    decreases |Universe(g, s)| - |order|, |order| - head
  {
    if head < |order| {
      var next := Enqueue(order, Neighbors(g, order[head]));
      BfsStep(g, s, order, head);
      NeighborsInUniverse(g, s, order[head]);
      DistinctCard(next, Universe(g, s));
      assert |next| == |order| ==> next == next[..|order|];
      BfsFromSpec(g, s, next, head + 1);
      var r := BfsFrom(g, s, next, head + 1);
      assert r[..|order|] == r[..|next|][..|order|];
    }
  }

  /** Every node on a walk from a listed node of a closed list is listed. */
  lemma {:induction false} PathStaysInside(g: Graph, r: seq<Node>, path: seq<Node>)
    requires Closed(g, r) && IsPath(g, path) && path[0] in r
    ensures forall x | x in path :: x in r
    decreases |path|
  {
    if |path| > 1 {
      var front := path[..|path| - 1];
      assert IsPath(g, front) by {
        forall i | 0 <= i < |front| - 1
          ensures front[i + 1] in Neighbors(g, front[i])
        {
          assert front[i + 1] == path[i + 1] && front[i] == path[i];
        }
      }
      PathStaysInside(g, r, front);
      assert path[|path| - 2] == front[|front| - 1];
      assert path == front + [path[|path| - 1]];
    }
  }

  /** A walk from the start to each listed node of a discovered list. */
  lemma {:induction false} PathToListed(g: Graph, r: seq<Node>, k: nat) returns (path: seq<Node>)
    requires Discovered(g, r) && k < |r|
    ensures IsPath(g, path) && path[0] == r[0] && path[|path| - 1] == r[k]
    decreases k
  {
    if k == 0 {
      path := [r[0]];
    } else {
      assert FoundFrom(g, r, k);
      var i :| 0 <= i < k && r[k] in Neighbors(g, r[i]);
      var front := PathToListed(g, r, i);
      path := front + [r[k]];
      forall j | 0 <= j < |path| - 1
        ensures path[j + 1] in Neighbors(g, path[j])
      {
        if j < |path| - 2 {
          assert path[j + 1] == front[j + 1] && path[j] == front[j];
        }
      }
    }
  }

  /**
   * The visit order lists the start first, each node once, and exactly the nodes
   * reachable from the start along edges, breadth-first: each node after the
   * start is a neighbour of an earlier one, and nodes come in the order of the
   * nodes they are found from. In a well-formed graph from a start in the graph
   * every listed node is a node of the graph.
   */
  lemma {:induction false} BfsOrderSpec(g: Graph, s: Node)
    ensures var r := BfsOrder(g, s);
      && |r| >= 1 && r[0] == s && Distinct(r)
      && (forall x :: x in r <==> Reachable(g, s, x))
      && Discovered(g, r) && LevelOrder(g, r)
      && (WellFormed(g) && s in g.nodes ==> forall x | x in r :: x in g.nodes)
  {
    var r := BfsOrder(g, s);
    BfsFromSpec(g, s, [s], 0);
    assert Closed(g, r);
    forall x
      ensures x in r <==> Reachable(g, s, x)
    {
      if x in r {
        var k :| 0 <= k < |r| && r[k] == x;
        var path := PathToListed(g, r, k);
      }
      if Reachable(g, s, x) {
        var path :| IsPath(g, path) && path[0] == s && path[|path| - 1] == x;
        PathStaysInside(g, r, path);
      }
    }
    if WellFormed(g) && s in g.nodes {
      forall x | x in r
        ensures x in g.nodes
      {
        if x != s {
          var k :| 0 <= k < |r| && r[k] == x;
          assert FoundFrom(g, r, k);
          var i :| 0 <= i < k && r[k] in Neighbors(g, r[i]);
          NeighborsSpec(g, r[i], x);
        }
      }
    }
  }

  /** Append each node of `ns` that is not yet visited, marking it visited. */
  method EnqueueUnvisited(order: seq<Node>, visited: set<Node>, ns: seq<Node>)
    returns (order': seq<Node>, visited': set<Node>)
    requires Distinct(order) && forall x :: x in visited <==> x in order
    ensures order' == Enqueue(order, ns)
    ensures forall x :: x in visited' <==> x in order'
  {
    order', visited' := order, visited;
    for i := 0 to |ns|
      invariant Enqueue(order', ns[i..]) == Enqueue(order, ns) && Distinct(order')
      invariant forall x :: x in visited' <==> x in order'
    {
      assert ns[i..][1..] == ns[i + 1..];
      if ns[i] !in visited' {
        assert Distinct(order' + [ns[i]]);
        order' := order' + [ns[i]];
        visited' := visited' + {ns[i]};
      }
    }
    assert ns[|ns|..] == [];
  }

  /** networkx's breadth-first search: a queue of found nodes and a visited set. */
  method Bfs(g: Graph, s: Node) returns (order: seq<Node>)
    ensures order == BfsOrder(g, s)
  {
    order := [s];
    var visited := {s};
    var head := 0;
    while head < |order|
      invariant head <= |order| && Distinct(order)
      invariant forall x | x in order :: x in Universe(g, s)
      invariant forall x :: x in visited <==> x in order
      invariant BfsFrom(g, s, order, head) == BfsOrder(g, s)
      decreases |Universe(g, s)| - |order|, |order| - head
    {
      ghost var prev := order;
      NeighborsInUniverse(g, s, order[head]);
      order, visited := EnqueueUnvisited(order, visited, Neighbors(g, order[head]));
      assert BfsFrom(g, s, prev, head) == BfsFrom(g, s, order, head + 1);
      DistinctCard(order, Universe(g, s));
      head := head + 1;
    }
  }

  // ---------------------------------------------------------------------------
  // The initial split and the driver
  // ---------------------------------------------------------------------------

  datatype BfsError = EmptyGraph | UnknownStart(node: Node)

  /**
   * The start of the visit: the given node, or, when none or an empty name is
   * given, the node at index `pick` of the node list (the random choice, passed in).
   * An empty graph has nothing to choose from; a given node outside the graph
   * cannot be visited from.
   */
  function StartNode(g: Graph, start: Option<Node>, pick: nat): (r: Result<Node, BfsError>)
    ensures r.Ok? ==> r.value in g.nodes
    ensures r.Ok? && start.Some? && start.value != "" ==> r.value == start.value
  {
    if start.None? || start.value == "" then
      if g.nodes == [] then Err(EmptyGraph) else Ok(g.nodes[pick % |g.nodes|])
    else if start.value in g.nodes then Ok(start.value)
    else Err(UnknownStart(start.value))
  }

  /** Side A: the first half of the node count in visit order; side B: the other visited nodes. */
  function BfsPartition(g: Graph, s: Node): Bipartition
  {
    var order := BfsOrder(g, s);
    var k := Min(|g.nodes| / 2, |order|);
    Bipartition(order[..k], order[k..])
  }

  /**
   * The split is a valid bipartition of exactly the nodes reachable from the start,
   * in visit order, with min(|V| / 2, size of the component) nodes on side A.
   */
  lemma {:induction false} BfsPartitionSpec(g: Graph, s: Node)
    ensures var p := BfsPartition(g, s);
      && Valid(p)
      && p.A + p.B == BfsOrder(g, s)
      && |p.A| == Min(|g.nodes| / 2, |BfsOrder(g, s)|)
      && (forall x :: x in p.A || x in p.B <==> Reachable(g, s, x))
  {
    var order := BfsOrder(g, s);
    var k := Min(|g.nodes| / 2, |order|);
    BfsOrderSpec(g, s);
    DistinctSplit(order, k);
    forall x
      ensures x in order[..k] || x in order[k..] <==> x in order
    {
      assert x in order <==> x in order[..k] + order[k..];
    }
  }

  /**
   * From a start in a connected well-formed graph the split covers every node,
   * with |V| / 2 nodes on side A and the remaining |V| - |V| / 2 on side B.
   */
  lemma {:induction false} BfsPartitionConnected(g: Graph, s: Node)
    requires WellFormed(g) && s in g.nodes
    requires forall x | x in g.nodes :: Reachable(g, s, x)
    ensures var p := BfsPartition(g, s);
      && (forall x :: x in g.nodes <==> x in p.A || x in p.B)
      && |p.A| == |g.nodes| / 2 && |p.B| == |g.nodes| - |g.nodes| / 2
  {
    var order := BfsOrder(g, s);
    BfsOrderSpec(g, s);
    BfsPartitionSpec(g, s);
    DistinctCard(g.nodes, set x | x in order);
    SetOfCard(order);
    DistinctCard(order, set x | x in g.nodes);
    SetOfCard(g.nodes);
    assert |order| == |g.nodes|;
  }

  /** The path a-b-c-d with unit weights. */
  function PathGraph(a: Node, b: Node, c: Node, d: Node): Graph
  {
    Graph([a, b, c, d], [Edge(a, b, 1), Edge(b, c, 1), Edge(c, d, 1)])
  }

  /** Enqueueing one new node appends it. */
  lemma {:induction false} EnqueueNew(order: seq<Node>, x: Node)
    requires x !in order
    ensures Enqueue(order, [x]) == order + [x]
  {
    assert [x][1..] == [];
  }

  /** Enqueueing a listed node and then a new one appends only the new one. */
  lemma {:induction false} EnqueueOldNew(order: seq<Node>, x: Node, y: Node)
    requires x in order && y !in order
    ensures Enqueue(order, [x, y]) == order + [y]
  {
    assert [x, y][1..] == [y];
    EnqueueNew(order, y);
  }

  lemma {:induction false} PathNeighbors(a: Node, b: Node, c: Node, d: Node)
    requires a != b && a != c && a != d && b != c && b != d && c != d
    ensures var g := PathGraph(a, b, c, d);
      && Neighbors(g, a) == [b] && Neighbors(g, b) == [a, c]
      && Neighbors(g, c) == [b, d] && Neighbors(g, d) == [c]
  {
    var es := PathGraph(a, b, c, d).edges;
    var e1 := [Edge(b, c, 1), Edge(c, d, 1)];
    var e2 := [Edge(c, d, 1)];
    assert es[1..] == e1 && e1[1..] == e2 && e2[1..] == [];
    assert NeighborsIn(e2, a) == [] && NeighborsIn(e2, b) == [];
    assert NeighborsIn(e2, c) == [d] && NeighborsIn(e2, d) == [c];
    assert NeighborsIn(e1, a) == [] && NeighborsIn(e1, b) == [c];
    assert NeighborsIn(e1, c) == [b, d] && NeighborsIn(e1, d) == [c];
    assert NeighborsIn(es, b) == [a, c];
  }

  /** The four expansions of the visit along the path. */
  lemma {:induction false} PathEnqueues(a: Node, b: Node, c: Node, d: Node)
    requires a != b && a != c && a != d && b != c && b != d && c != d
    ensures Enqueue([a], [b]) == [a, b]
    ensures Enqueue([a, b], [a, c]) == [a, b, c]
    ensures Enqueue([a, b, c], [b, d]) == [a, b, c, d]
    ensures Enqueue([a, b, c, d], [c]) == [a, b, c, d]
  {
    EnqueueNew([a], b);
    EnqueueOldNew([a, b], a, c);
    EnqueueOldNew([a, b, c], b, d);
    assert [c][1..] == [];
  }

  /** On a path of four distinct nodes the visit from one end walks the path. */
  lemma {:induction false} BfsPathOrder(a: Node, b: Node, c: Node, d: Node)
    requires a != b && a != c && a != d && b != c && b != d && c != d
    ensures BfsOrder(PathGraph(a, b, c, d), a) == [a, b, c, d]
  {
    var g := PathGraph(a, b, c, d);
    PathNeighbors(a, b, c, d);
    PathEnqueues(a, b, c, d);
    NeighborsInUniverse(g, a, a);
    NeighborsInUniverse(g, a, b);
    NeighborsInUniverse(g, a, c);
    NeighborsInUniverse(g, a, d);
    assert BfsFrom(g, a, [a, b, c, d], 3) == [a, b, c, d];
    assert BfsFrom(g, a, [a, b, c], 2) == [a, b, c, d];
    assert BfsFrom(g, a, [a, b], 1) == [a, b, c, d];
  }

  /** On the path N0-N1-N2-N3 the split from N0 puts N0 and N1 on side A and
      N2 and N3 on side B. */
  lemma {:induction false} BfsPathExample()
    ensures BfsPartition(PathGraph("N0", "N1", "N2", "N3"), "N0")
      == Bipartition(["N0", "N1"], ["N2", "N3"])
  {
    BfsPathOrder("N0", "N1", "N2", "N3");
    var order := BfsOrder(PathGraph("N0", "N1", "N2", "N3"), "N0");
    assert order[..2] == ["N0", "N1"] && order[2..] == ["N2", "N3"];
  }

  /** networkx's breadth-first split, with the random start passed in as `pick`. */
  method BfsInitialPartition(g: Graph, start: Option<Node>, pick: nat) returns (r: Result<Bipartition, BfsError>)
    ensures StartNode(g, start, pick).Err? ==> r == Err(StartNode(g, start, pick).error)
    ensures StartNode(g, start, pick).Ok? ==> r == Ok(BfsPartition(g, StartNode(g, start, pick).value))
  {
    var s: Node;
    if start.None? || start.value == "" {
      if |g.nodes| == 0 {
        return Err(EmptyGraph);
      }
      s := g.nodes[pick % |g.nodes|];
    } else {
      s := start.value;
      if s !in g.nodes {
        return Err(UnknownStart(s));
      }
    }
    var order := Bfs(g, s);
    var k := |g.nodes| / 2;
    if k > |order| {
      k := |order|;
    }
    r := Ok(Bipartition(order[..k], order[k..]));
  }

  /** The outcome of a Kernighan-Lin run: the best partition, its cut, and the pass history. */
  datatype Run = Run(best: Bipartition, bestCut: nat, history: seq<HistoryEntry>)

  /**
   * Kernighan-Lin from the breadth-first split: the run of the classic passes,
   * its first record labelled as the breadth-first initial state; fails exactly
   * when no start node can be found.
   */
  method KernighanLinBfs(g: Graph, maxPasses: int, start: Option<Node>, pick: nat)
    returns (r: Result<Run, BfsError>, ghost trail: seq<Bipartition>)
    ensures StartNode(g, start, pick).Err? ==> r == Err(StartNode(g, start, pick).error)
    ensures StartNode(g, start, pick).Ok? <==> r.Ok?
    ensures r.Ok? && StartNode(g, start, pick).Ok? ==>
      var s, run := StartNode(g, start, pick).value, r.value;
      && Chronicle(g, Classic, trail, run.history) && trail[0] == BfsPartition(g, s)
      && run.history[0].note == BfsInitialState
      && |run.history| - 1 <= Max(0, maxPasses)
      && (|run.history| - 1 < maxPasses ==> CommitCount(g, Classic, trail[|trail| - 1]) == 0)
      && run.best == trail[|trail| - 1] && run.bestCut == CutSize(g, run.best)
      && Descending(run.history) && run.bestCut <= CutSize(g, trail[0])
      && Valid(run.best) && SameShape(trail[0], run.best)
  {
    var split := BfsInitialPartition(g, start, pick);
    if split.Err? {
      return Err(split.error), [];
    }
    BfsPartitionSpec(g, StartNode(g, start, pick).value);
    var best, bestCut, history;
    best, bestCut, history, trail := KernighanLin(g, split.value, maxPasses, BfsInitialState);
    r := Ok(Run(best, bestCut, history));
  }
}

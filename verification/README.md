# Two-way min-cut partitioning with Kernighan-Lin, modelled in Dafny

This project models the partition-optimisation engine of EDA_Circuit_Partitioning_KL and its netlist line reader. The engine has four variants, which share the cut and D helpers:

- **Classic Kernighan-Lin.** Each pass runs a locking search of min(|A|, |B|) tentative exchanges. After each lock it patches the D values of the nodes that are still unlocked. It then rolls back to the prefix of largest cumulative gain (the first such prefix) and commits it. Passes repeat until a pass gains nothing or the pass limit is reached.
- **Classic Kernighan-Lin from a BFS split.** The first ⌊|V|/2⌋ nodes of a breadth-first order go to A; the rest of the order goes to B.
- **Greedy baseline.** Each iteration performs the single best exchange, provided its gain is strictly positive.
- **Patience variant.** D is never patched inside a pass. The run keeps the best partition seen, and stops after `patience` committed passes that do not lower the best cut.

The netlist reader turns text lines into a weighted graph.

Modules, one per file:

- `Seqs` (seqs.dfy): `Option`, `Result` and small sequence helpers.
- `Graphs` (graph.dfy): the weighted graph.
  - It holds a node list and an edge list, both in insertion order.
  - `Weight` gives the weight of a pair, or 0 when there is no edge.
  - `Neighbors` gives adjacency in edge order.
  - `AddEdge` is networkx's `add_edge`: it overwrites the weight of an existing pair.
- `CutGain` (cut_gain.dfy): the cut size, the D values, the gain of an exchange and the exchange itself.
  - It proves the Kernighan-Lin swap identity and the D-patch identity.
  - Both are stated for arbitrary graphs: a self-loop adds a correction term.
- `KlPass` (kl_pass.dfy): one pass of the engine.
  - The scan for the best pair.
  - The locking search with patched D (classic) or with pass-start D (patience variant).
  - The prefix rollback and the commit.
  - Specification functions for the whole pass (`LockSeq`, `PrefixChoice`, `AfterPass`), with their properties.
- `KlClassic` (kl_classic.dfy): the classic driver and its history records.
- `KlBfs` (kl_bfs.dfy): the breadth-first order, the BFS split and the driver seeded by it.
- `Greedy` (greedy.dfy): the single-exchange baseline.
- `KlPatience` (kl_patience.dfy): the variant with stale D and patience-based stopping.
- `Netlist` (netlist.dfy): Python's `strip`, `split` and `isdigit`/`int` on one line, the classification of a line, and the graph built from a file's lines.

Partitions are sequences: `Bipartition(A, B)` holds each side in its iteration order. This order fixes which pair wins a tie: the first strictly better pair in row-major scan order. An exchange removes a from A and appends b at the end of A, and symmetrically for B, as `set.remove`/`set.add` do.

Each driver is a method with the source's loop. It returns the records the source returns, plus a ghost `trail` of the partitions the run went through. A recursive predicate (`Chronicle`, `GreedyChronicle`) ties the i-th history record to trail[i], and trail[i+1] to the pass (or exchange) applied to trail[i].

## Model

| member | source | states |
|---|---|---|
| CutGain.CutSizeSpec | src/core/kl_classic.py:17-25 | The cut is symmetric in (A, B) and is 0 when either side is empty. |
| CutGain.DValues | src/core/kl_classic.py:27-44 | The D map has exactly the nodes of A and B as keys; each value is the node's external minus internal edge weight. |
| CutGain.DValueNoPartitionedNeighbor | src/core/kl_classic.py:37-43 | A node with no neighbour in A or B has D = 0: neighbours outside the partition contribute nothing. |
| CutGain.SwapMembers | src/core/kl_classic.py:121-122 | After exchanging a and b, A holds A's nodes except a, plus b; B holds B's nodes except b, plus a. |
| CutGain.SwapShape | src/core/base_partitioning.py:104-108 | An exchange of a ∈ A and b ∈ B keeps the sides distinct and disjoint, keeps both sizes and keeps the union. |
| CutGain.MoveIdentity | src/core/kl_classic.py:27-44 | Moving one node across lowers the cut by its D value (less its self-loop weight, which D counts as internal). |
| CutGain.SwapIdentity | src/core/kl_classic.py:94-95 | Exchanging a ∈ A and b ∈ B lowers the cut by exactly D(a)+D(b)−2w(a,b) on a graph without self-loops; in general the two self-loop weights are subtracted as well. |
| CutGain.SwapGain | src/core/kl_classic.py:94-95 | The same identity, stated with the gain computed from a D map that agrees with D on a and b. |
| CutGain.PatchIdentity | src/core/kl_classic.py:103-110 | After exchanging a and b, a node of A has D increased by 2w(x,a)−2w(x,b), and a node of B by 2w(x,b)−2w(x,a). |
| Graphs.NeighborsSpec | src/core/kl_classic.py:37 | y is a neighbour of x exactly when some edge joins x and y. |
| Graphs.WeightSpec | src/core/kl_classic.py:94 | Weight is symmetric, is 0 for a missing edge (get_edge_data's default), and equals the weight of the joining edge in a well-formed graph. |
| Graphs.AddNode | src/utils/netlist_parser.py:46 | Adding a node gives the old nodes plus it, without duplicates. |
| Graphs.SetWeight | src/utils/netlist_parser.py:46 | Setting a pair's weight adds an edge only when the pair is new; other edges are kept. |
| Graphs.AddEdgeSpec | src/utils/netlist_parser.py:46 | add_edge keeps the graph well formed, appends the new endpoints (u, then v) after the existing nodes, sets the pair's weight to w, changes no other pair's weight, and adds an edge only when the pair is new. |
| KlPass.BestPair | src/core/kl_classic.py:90-98 | The nested scan returns the pair of largest gain over the unlocked nodes, the first such pair in scan order, and its gain. |
| KlPass.FirstBestPair | src/core/kl_classic.py:90-98 | The scan-order maximum, as a function: it has the largest gain and no earlier pair matches it. |
| KlPass.ScanMaxUnique | src/core/kl_classic.py:96-97 | The "first strictly greater" rule picks exactly one pair. |
| KlPass.PatchD | src/core/kl_classic.py:103-110 | The patch loop adds 2w(u,a)−2w(u,b) to each unlocked u in A, adds 2w(v,b)−2w(v,a) to each unlocked v in B, and leaves every other entry alone. |
| KlPass.PatchedIsExact | src/core/kl_classic.py:103-110 | The patched D of every still-unlocked node equals D recomputed from scratch on the partition with the locked pair exchanged. |
| KlPass.LockOne | src/core/kl_classic.py:92-110 | One locking step picks the specified pair, removes a and b from the unlocked lists, and leaves the unlocked nodes with exact D values for the exchanged partition. |
| KlPass.LockingSearch | src/core/kl_classic.py:86-110 | The classic locking loop records exactly the specified sequence of exchanges (D patched after each lock). |
| KlPass.LockingSearchStale | src/core/kl_original.py:94-111 | The patience variant's locking loop records exactly the specified sequence of exchanges, with D fixed at the pass start. |
| KlPass.LockSeqShape | src/core/kl_classic.py:90-102 | A pass records exactly min(\|A\|, \|B\|) exchanges, each taking its a from A and its b from B, and no node is locked twice. |
| KlPass.LockSeqChoices | src/core/kl_classic.py:90-102 | The k-th recorded exchange is the scan-order maximum over the pairs still unlocked after k locks, scored with that pass's D. |
| KlPass.LockFromStale | src/core/kl_original.py:94-111 | With stale D, every recorded gain is computed from the pass-start D values. |
| KlPass.LockSeqTelescopes | src/core/kl_classic.py:111-124 | With patched D, applying the first k exchanges lowers the cut by at least their cumulative gain, and by exactly that amount without self-loops. |
| KlPass.PrefixChoice | src/core/kl_classic.py:111-116 | The best cumulative gain is ≥ 0 and bounds every prefix sum; best_k = −1 gives gain 0; otherwise gain > 0 is attained at best_k and at no earlier index. |
| KlPass.PrefixChoiceNone | src/core/kl_classic.py:111-116 | best_k = −1 exactly when no prefix sum is positive. |
| KlPass.BestPrefix | src/core/kl_classic.py:111-116 | The prefix loop computes exactly that choice. |
| KlPass.Commit | src/core/kl_classic.py:118-122 | The commit loop applies the first n recorded exchanges in order. |
| KlPass.CommitPrefix | src/core/kl_classic.py:118-124 | Any committed prefix keeps the partition valid with the same sizes and union; with patched D it lowers the cut by at least (without self-loops, exactly) the prefix's cumulative gain. |
| KlPass.RunPass | src/core/kl_classic.py:86-124 | One pass returns the best cumulative gain of the locking search (the maximum over its prefixes), commits CommitCount exchanges, commits some exactly when that gain is positive, and yields AfterPass. |
| KlPass.AfterPassShape | src/core/kl_classic.py:118-122 | A pass keeps the sizes of both sides and their union. |
| KlPass.AfterPassConverged | src/core/kl_classic.py:129-131 | A pass commits nothing exactly when no prefix sum is positive, and then leaves the partition unchanged. |
| KlPass.AfterPassImproves | src/core/kl_classic.py:118-127 | A classic pass that commits lowers the cut by at least its best cumulative gain, so the cut strictly drops. |
| KlClassic.ChronicleSnoc | src/core/kl_classic.py:123-124 | Appending a committed pass and its record keeps the history tied to the partitions. |
| KlClassic.ChronicleAt | src/core/kl_classic.py:123-124 | Read record by record: record i has pass number i and the cut of the i-th partition, each partition is valid, and each later partition is a committing pass applied to the one before. |
| KlClassic.ClassicStep | src/core/kl_classic.py:118-127 | A committed classic pass gives a valid partition of the same shape with a strictly smaller cut, and extends the history correctly. |
| KlClassic.ClassicAdvance | src/core/kl_classic.py:118-127 | A committed pass lowers the cut strictly and extends the loop state: the new record carries the next pass number, the swap count and the new cut, the cuts still strictly decrease, and the first record and the partition's shape are kept. |
| KlClassic.KernighanLin | src/core/kl_classic.py:46-148 | history[0] is the initial cut; every later record is a committed pass with its swap count and resulting cut. There are at most max_passes passes, and stopping early means the last pass committed nothing. Cuts strictly decrease, and the returned partition is the last one, with its cut ≤ the initial cut and the sizes and union of the input. |
| KlBfs.Enqueue | src/core/kl_improvements.py:66 | Discovering neighbours keeps the order as a prefix, adds exactly the new nodes, and keeps it duplicate-free. |
| KlBfs.BfsOrderSpec | src/core/kl_improvements.py:66 | The BFS order starts at the start node, has no duplicates, holds exactly the nodes reachable from the start, and (for a graph node) only graph nodes. It is breadth-first: each later node is a neighbour of an earlier one, and the index of the first earlier neighbour never decreases along the order. |
| KlBfs.BfsPathOrder | src/core/kl_improvements.py:66 | On a path a-b-c-d of distinct nodes the visit from a lists a, b, c, d. |
| KlBfs.BfsPathExample | src/core/kl_improvements.py:66-71 | On the path N0-N1-N2-N3 the split from N0 is A = [N0, N1], B = [N2, N3]. |
| KlBfs.Bfs | src/core/kl_improvements.py:66 | The queue-and-visited-set loop produces exactly that order. |
| KlBfs.StartNode | src/core/kl_improvements.py:62-63 | A non-empty given start is used as is; an empty or missing one is drawn from the graph's nodes; a successful start is a graph node. |
| KlBfs.BfsPartitionSpec | src/core/kl_improvements.py:66-71 | A and B are disjoint, A followed by B is the BFS order, \|A\| = min(⌊\|V\|/2⌋, reached count), and a node is placed exactly when it is reachable. |
| KlBfs.BfsPartitionConnected | src/core/kl_improvements.py:69-71 | On a connected graph the split covers every node, with ⌊\|V\|/2⌋ nodes in A and the rest in B. |
| KlBfs.BfsInitialPartition | src/core/kl_improvements.py:48-73 | The split from the chosen start node, or the error the start node choice gives. |
| KlBfs.KernighanLinBfs | src/core/kl_improvements.py:77-164 | The classic run from the BFS split, with history[0] labelled as the BFS state, a valid best partition of the same shape as the split, and all of KernighanLin's guarantees relative to that split. |
| Greedy.GreedyChoiceSpec | src/core/base_partitioning.py:91-103 | No exchange is made exactly when every pair has gain ≤ 0; otherwise the exchange is the first pair of largest gain, and that gain is positive. |
| Greedy.GreedyChoiceImproves | src/core/base_partitioning.py:103-110 | A performed exchange moves a ∈ A and b ∈ B and lowers the cut by at least its gain, so strictly, and by exactly its gain in a graph without self-loops. |
| Greedy.BestPositivePair | src/core/base_partitioning.py:91-100 | The sentinel-0 scan finds a pair exactly when some gain is positive, and then it is the first pair of largest gain. |
| Greedy.ChooseSwap | src/core/base_partitioning.py:88-103 | The D computation and scan pick exactly the specified exchange. |
| Greedy.GreedyStep | src/core/base_partitioning.py:103-116 | A performed exchange appends a record with the pair, its gain and the cut after it; that cut is below every earlier recorded cut, and the partition keeps its shape. |
| Greedy.SimpleGreedy | src/core/base_partitioning.py:42-141 | history[0] is the initial cut; each later record is the chosen exchange with its gain and the cut after it. There are at most max_iterations exchanges, and stopping early means no pair of the result has positive gain (a fixed point). Cuts strictly decrease, and the returned cut is that of the returned partition, which has the input's sizes and union. |
| KlPatience.LastRecord | src/core/kl_original.py:132-134 | The index of the best partition: it set a new best cut, no later record did, and its cut is the smallest in the history. |
| KlPatience.RecordStep | src/core/kl_original.py:143-151 | Appending a record moves the best to it exactly when its cut is strictly below the best so far. |
| KlPatience.PatienceAdvance | src/core/kl_original.py:123-146 | After a committed pass the best partition moves to the new one exactly when its cut is strictly below the best cut, the no-improvement counter resets exactly then and otherwise grows by one, and the patience test of every earlier pass still holds. |
| KlPatience.KernighanLinPatience | src/core/kl_original.py:43-162 | Every record is a committed pass of the stale-D engine. The result is the first partition with the smallest recorded cut, so it never exceeds the initial cut. There are at most max_passes passes; the run stopped early only on a non-positive pass or after `patience` passes without a new best; the patience test passed at every earlier pass. |
| Netlist.TrimLeft | src/utils/netlist_parser.py:33 | The result is a suffix; everything dropped is whitespace; it does not start with whitespace. |
| Netlist.TrimRight | src/utils/netlist_parser.py:33 | The result is a prefix; everything dropped is whitespace; it does not end with whitespace. |
| Netlist.Word | src/utils/netlist_parser.py:39 | The first token is a whitespace-free prefix, ended by whitespace or by the end of the text. |
| Netlist.Split | src/utils/netlist_parser.py:39 | Every token is non-empty and whitespace-free. |
| Netlist.SplitSpec | src/utils/netlist_parser.py:39 | The tokens are the maximal runs of non-whitespace: the line is the tokens laid out between whitespace gaps (empty or not at the ends, non-empty between tokens), and any such layout of any words gives back exactly those words. |
| Netlist.SplitInterleave | src/utils/netlist_parser.py:39 | Leading, trailing and repeated whitespace around words is dropped by the split. |
| Netlist.SplitGaps | src/utils/netlist_parser.py:39 | Every line is its tokens between whitespace gaps, the first gap being empty exactly when the line does not start with whitespace. |
| Netlist.SplitUnwords | src/utils/netlist_parser.py:39 | Splitting words joined by single spaces gives back those words. |
| Netlist.StripUnwords | src/utils/netlist_parser.py:33 | Words joined by single spaces are left unchanged by strip. |
| Netlist.SplitSpaceSuffix | src/utils/netlist_parser.py:39 | Trailing whitespace of any length does not change the split. |
| Netlist.SplitStrip | src/utils/netlist_parser.py:33-39 | Splitting the stripped line gives the same words as splitting the line itself. |
| Netlist.DecimalRoundTrip | src/utils/netlist_parser.py:45 | The decimal text of n is all digits and reads back as n. |
| Netlist.Classify | src/utils/netlist_parser.py:33-49 | A line read as an edge has two endpoints that start with 'N'. |
| Netlist.ClassifySpec | src/utils/netlist_parser.py:33-49 | Any line, whatever its whitespace, is read from its words alone: no words is blank, a first word starting with '#' a comment, two first words starting with 'N' an edge weighted by an all-digit third word or by 1, anything else skipped. |
| Netlist.ClassifyComment | src/utils/netlist_parser.py:36-37 | A line starting with '#' is skipped as a comment. |
| Netlist.ClassifyEdgeWords | src/utils/netlist_parser.py:33-46 | Words joined by spaces whose first two start with 'N' are read as the edge between those two, weighted by the third word's value when it is all digits and by 1 otherwise. |
| Netlist.ClassifyWeighted | src/utils/netlist_parser.py:42-46 | A line `u v w` with N-names is read as the edge (u, v) with weight w. |
| Netlist.ClassifyUnweighted | src/utils/netlist_parser.py:42-46 | A line `u v` with N-names is read as the edge (u, v) with the default weight 1. |
| Netlist.ClassifyMalformed | src/utils/netlist_parser.py:42-49 | A non-comment line with fewer than two words, or whose first two words do not both start with 'N', is skipped as malformed. |
| Netlist.BuildStep | src/utils/netlist_parser.py:32-49 | One more line adds its edge if it is an edge line, and otherwise changes nothing. |
| Netlist.ParseNetlist | src/utils/netlist_parser.py:32-49 | The reading loop builds exactly the specified graph from the lines. |
| Netlist.BuildNodes | src/utils/netlist_parser.py:46 | The nodes are exactly the endpoints of the edge lines. |
| Netlist.BuildEdges | src/utils/netlist_parser.py:46 | Two nodes are joined exactly when some edge line names them, in either order. |
| Netlist.BuildWeight | src/utils/netlist_parser.py:46 | A pair's weight is the one written on the last edge line naming it, or 0 if there is none. |
| Netlist.BuildNoEdges | src/utils/netlist_parser.py:36-37 | Lines that hold no edge give the empty graph. |
| Netlist.ParseSkipsAll | src/utils/netlist_parser.py:33-37 | A file of blank and comment lines gives 0 nodes and 0 edges. |
| Netlist.ParseLinesSpec | src/utils/netlist_parser.py:32-49 | The parsed graph is well formed, its nodes are exactly the endpoints of edge lines, its edges exactly the pairs named, and each pair's weight is the last one written. |

## Left out

- Timing (`time.perf_counter`, `execution_time`) and `verbose` printing: they have no effect on the result.
- The annotated graph copies (`initial_graph`, `final_graph`): these are output for drawing.
- File opening, the `FileNotFoundError` and other exception paths, and the `None` return of the netlist reader: the model reads a sequence of lines.
- The random start node: `random.choice` is an argument `pick`, which selects node `pick % |V|`.
- Python set iteration order is hash-based, and the model fixes it instead:
  - each side is a sequence in iteration order;
  - an exchange appends the arriving node at the end;
  - the BFS split keeps the BFS order.

  Which pair wins a tie therefore follows that order.
- networkx's BFS visits neighbours in adjacency order. The model takes the order in which edges were added; it does not model networkx's dictionaries.
- The sides are values (`Bipartition`), which each step reassigns. There is no aliasing between the sets, because the source copies them before mutating.
- The history records are datatypes (`HistoryEntry`, `GreedyEntry`) in place of dictionaries. The `details` strings are the `Note` values, and the greedy gain is kept as an integer rather than formatted with `.2f`.
- The `(None, None)` break of the locking loop cannot be reached: the loop runs min(|A|, |B|) times and removes one node per side each time. So `KlPass.BestPair` requires two non-empty lists.
- All engines require `Valid(p0)`: the two sides have no duplicates and no common node. The source does not check this; it is an obligation on the caller, who passes two sets meant to split the node set.
- KlClassic.KernighanLin: a partition node that is not in the graph makes the source raise `KeyError` while it annotates its copy of the graph (`initial_graph.nodes[node]`, src/core/kl_classic.py:67-71), before any pass and even with no passes allowed. The model has no such error and treats that node as isolated, with D = 0.
- Greedy.SimpleGreedy: a partition node that is not in the graph makes the source raise `KeyError` while it annotates its copy of the graph (src/core/base_partitioning.py:70-74), before any iteration and even with no iterations allowed. The model has no such error and treats that node as isolated, with D = 0.
- KlPatience.KernighanLinPatience: a partition node that is not in the graph makes the source's D computation raise networkx's `NetworkXError` from `G.neighbors` (src/core/kl_original.py:34) once a pass runs. The model has no such error and treats that node as isolated, with D = 0.
- KlBfs.KernighanLinBfs: the `NetworkXError` of `G.neighbors` for a partition node outside the graph (src/core/kl_improvements.py:37) is not modelled; it cannot arise on a well-formed graph from a start in the graph, since every visited node is then a graph node.
- Every edge carries a weight in the model. In the source the cut and D fall back to weight 1 for an edge without a `weight` attribute (`.get('weight', 1)`), while the gain and D-patch lookups read `['weight']` (src/core/kl_classic.py:94-109, src/core/base_partitioning.py:96, and the same lookups in the other engines) and would raise `KeyError`. Graphs read by the netlist reader always set a weight, so this case does not arise through it.
- Netlist.Classify: `str.isdigit`/`int` are modelled on the ASCII digits only. Other Unicode digits are not modelled; `int` raises on some of them, such as '²', and the reader then returns None.
- The concrete example files of the parser tests are not restated; the general lemmas `Netlist.ParseLinesSpec`, `Netlist.ClassifyMalformed` and `Netlist.ParseSkipsAll` cover the line shapes they use. The four-node path example of the BFS split is `KlBfs.BfsPathExample`.
- The `scripts/` directory, `src/utils/graph_visualizer.py` and its test are not part of this model.

# De Bruijn assembler core, modelled in Dafny

This project models the core of `debruijn/debruijn.py`, a small genome
assembler built on a de Bruijn graph:

- the reads are cut into k-mers and the k-mers counted;
- the counts become a weighted directed graph of (k-1)-mers;
- the graph is cleaned of bubbles (two paths between the same pair of
  nodes) and of entry and out tips (dead-end branches);
- the contigs are spelled along the simple paths from the starting nodes
  (no predecessor) to the sink nodes (no successor).

The modules follow the stages of the program:

| file | module | what it holds |
|---|---|---|
| `seqs.dfy` | `Seqs`, `Outcomes` | distinctness of sequences; `Option`, `Result` and the `Fault` raised by the program (NodeNotFound, a missing node on removal, StatisticsError, IndexError, fuel exhausted) |
| `graph.dfy` | `Graphs` | the graph as a value (`Graph`: node list, edge list, weight map) and the `DiGraph` class that the imperative operations mutate in place |
| `paths.dfy` | `Paths` | `all_simple_paths` as a depth-first search in successor order, proved sound and complete; ancestors and `lowest_common_ancestor` |
| `weights.dfy` | `Weights` | `path_average_weight`: mean weight of the edges of the subgraph induced by a path |
| `kmers.dfy` | `Kmers` | `cut_kmer` and the counting loop of `build_kmer_dict` |
| `build.dfy` | `Build` | `build_graph`: one edge per distinct k-mer, prefix to suffix, weighted by its count |
| `select.dfy` | `Select` | `remove_paths` and `select_best_path` |
| `bubbles.dfy` | `Bubbles` | `solve_bubble` and `simplify_bubbles` |
| `tips.dfy` | `Tips` | `solve_entry_tips` and `solve_out_tips`, one model with a direction flag |
| `boundary.dfy` | `Boundary` | `get_starting_nodes` and `get_sink_nodes` |
| `contigs.dfy` | `Contigs` | `get_contigs` |

Each operation that changes the graph is a method taking the `DiGraph`. Its
postcondition ties the new state to a function over the old graph value:
`Matches(fault, g.View(), F(old(g.View()), ...))`. That function is the
specification, and the lemmas about it state what the operation
guarantees. Each loop that only computes a value is a method with loop
invariants. Its postcondition equates its result with the specification
function.

A Python exception becomes an error value:

- `remove_node` on a node that is already gone raises; it becomes
  `NodeMissing`;
- `statistics.stdev` on fewer than two values and `statistics.mean` on no
  value raise; they become `StatisticsError`;
- `has_path` on a node that is not in the graph raises; it becomes
  `NodeNotFound`;
- `a_path[0]` and `node[-1]` on an empty sequence raise; they become
  `IndexError`.

`random.randint` becomes a caller-supplied sequence of draws. Each round
consumes one draw, and the kept index is the draw modulo the number of
paths.

As written, `simplify_bubbles` stops scanning at the first node whose
predecessors contain a pair whose lowest common ancestor is not None. But the `break` leaves
only the inner loop, so `ancestor_node` ends up as the lowest common
ancestor of the last two predecessors. When that pair has none, the call
`solve_bubble(graph, None, node)` raises NodeNotFound. The model follows
the code: `Bubbles.BubbleSite` records that last ancestor, and
`Bubbles.BubbleWithoutAncestorFails` states the failure.

## Model

| member | source | states |
|---|---|---|
| Kmers.CutKmer | debruijn/debruijn.py:118-125 | yields max(0, len(read) - k + 1) k-mers; the i-th is the slice read[i:i+k] and has length k |
| Kmers.AllKmersLength | debruijn/debruijn.py:135-136 | the k-mers of all reads number the sum of the per-read window counts |
| Kmers.TallyCounts | debruijn/debruijn.py:134-137 | the dictionary's keys are exactly the k-mers seen, each counted with its number of occurrences; the key order lists each k-mer once |
| Kmers.TallySum | debruijn/debruijn.py:134-137 | the counts sum to the number of k-mers counted |
| Kmers.KmerCountsSum | debruijn/debruijn.py:128-138 | the counts of the dictionary built from reads sum to the total number of windows of the reads |
| Kmers.CountKmers | debruijn/debruijn.py:136-137 | the counting loop extends the dictionary exactly as counting the new k-mers one after the other |
| Kmers.BuildKmerDict | debruijn/debruijn.py:128-138 | the result holds every k-mer of every read and nothing else, each with its number of occurrences |
| Build.KmerEdgeInjective | debruijn/debruijn.py:148 | two k-mers of the same length with the same (kmer[:-1], kmer[1:]) edge are equal, so no count is overwritten |
| Build.KmerEdges | debruijn/debruijn.py:147-148 | one edge per dictionary key, in key order, from its prefix to its suffix |
| Build.GraphOf | debruijn/debruijn.py:146-149 | the graph built from a dictionary is well formed: nodes and edges listed once, weights exactly on the edges |
| Build.ShapedStep | debruijn/debruijn.py:147-148 | each add_edge keeps: edges are the keys' edges in order, each weight is the key's count, every edge joins two overlapping (k-1)-mers, every node lies on an edge |
| Build.GraphOfShape | debruijn/debruijn.py:146-149 | the whole graph has that shape for distinct keys of length k |
| Build.BuildGraph | debruijn/debruijn.py:140-149 | the loop's graph is a fresh object equal to the graph of the dictionary |
| Build.DeBruijnOfReads | debruijn/debruijn.py:128-149 | from reads: every k-mer read becomes an edge prefix to suffix weighted by its number of occurrences; every edge joins overlapping (k-1)-mers |
| Build.AllKmersShape | debruijn/debruijn.py:124-125 | every k-mer cut has length k |
| Graphs.Preds | debruijn/debruijn.py:244 | graph.predecessors(v): exactly the sources of the edges into v, all nodes, each once |
| Graphs.Succs | debruijn/debruijn.py:298 | graph.successors(u): exactly the targets of the edges out of u, all nodes, each once |
| Graphs.WithEdge | debruijn/debruijn.py:148 | add_edge adds both ends as nodes, sets the weight of (u, v) to w, leaves every other edge and weight as it was, appends the edge only when it is new, and keeps the graph well formed |
| Graphs.RemoveSet | debruijn/debruijn.py:169 | removing a set of nodes keeps exactly the other nodes and the edges between them, with their weights, the survivors in their old order |
| Graphs.RemoveSetTwice | debruijn/debruijn.py:167-178 | removing A then B is removing A and B |
| Graphs.InducedByRemoval | debruijn/debruijn.py:167-178 | what remains after removals is the subgraph induced by the surviving nodes |
| Graphs.InducedTrans | debruijn/debruijn.py:255 | an induced subgraph of an induced subgraph is induced in the original |
| Graphs.DiGraph.constructor | debruijn/debruijn.py:146 | DiGraph() is the empty graph |
| Graphs.DiGraph.AddEdge | debruijn/debruijn.py:148 | add_edge mutates the graph into WithEdge of the old one |
| Graphs.DiGraph.RemoveNode | debruijn/debruijn.py:172 | remove_node succeeds exactly on a present node, which it removes with its edges; otherwise the graph is unchanged and the error reported |
| Graphs.DiGraph.RemoveNodesFrom | debruijn/debruijn.py:169 | remove_nodes_from removes the listed nodes, ignoring absent ones |
| Paths.DfsSound | debruijn/debruijn.py:231 | every path the search yields is a simple path extending the current prefix to the target |
| Paths.DfsComplete | debruijn/debruijn.py:231 | every simple walk to the target that extends the prefix is yielded |
| Paths.SimplePathsExact | debruijn/debruijn.py:231 | for source != target, a sequence is yielded by all_simple_paths if and only if it is a simple path from source to target |
| Paths.SimplePathsDistinct | debruijn/debruijn.py:231 | all_simple_paths yields no path twice |
| Paths.SimplePathsShape | debruijn/debruijn.py:231 | each yielded path is simple, has at least two nodes, and uses only nodes of the graph |
| Paths.ClosureSpec | debruijn/debruijn.py:248 | the ancestor closure contains the start, stays within the nodes and is closed under predecessors |
| Paths.ClosureLeast | debruijn/debruijn.py:248 | it is the least such set |
| Paths.FirstLowestSpec | debruijn/debruijn.py:248 | the chosen candidate is a common ancestor with no successor among the common ancestors; None only if no candidate has that property |
| Paths.LCASound | debruijn/debruijn.py:248 | lowest_common_ancestor returns a node that is an ancestor of both with no common-ancestor successor; None when they share no ancestor |
| Paths.LowestExists | debruijn/debruijn.py:248 | in an acyclic graph every non-empty set of nodes has a member with no successor in the set |
| Paths.LCAComplete | debruijn/debruijn.py:248 | in an acyclic graph two nodes that share an ancestor get a lowest common ancestor, not None |
| Paths.LCAIsNode | debruijn/debruijn.py:248-249 | a found ancestor is a node of the graph |
| Weights.InducedEdgesSpec | debruijn/debruijn.py:219 | graph.subgraph(path).edges are exactly the edges with both ends on the path |
| Weights.AverageWeight | debruijn/debruijn.py:211-220 | the only failure of the mean is StatisticsError |
| Weights.AverageWeightSpec | debruijn/debruijn.py:218-220 | the mean fails exactly when the path induces no edge |
| Weights.AverageBetween | debruijn/debruijn.py:218-220 | the mean lies between any bounds on the induced edges' weights |
| Weights.MeanBounds | debruijn/debruijn.py:218 | a sum between n*lo and n*hi has a mean between lo and hi |
| Weights.WeightSumBounds | debruijn/debruijn.py:219 | the sum of n weights in [lo, hi] lies in [n*lo, n*hi] |
| Weights.AverageDefined | debruijn/debruijn.py:218-220 | a walk of two nodes or more has a defined mean |
| Weights.Averages | debruijn/debruijn.py:232 | the list of averages has one entry per path; its only failure is StatisticsError |
| Weights.AveragesSpec | debruijn/debruijn.py:232 | it succeeds exactly when every path's mean does, and then holds each path's mean at its index |
| Weights.AveragesDefined | debruijn/debruijn.py:232 | for walks of two nodes or more it succeeds |
| Weights.Lengths | debruijn/debruijn.py:233 | one length per path, the path's own length |
| Select.RemoveEach | debruijn/debruijn.py:171-178 | the remove_node loop fails only with a missing node from the list and keeps the graph well formed |
| Select.RemoveEachExact | debruijn/debruijn.py:171-178 | it succeeds exactly when the nodes are distinct and all present, and then removes exactly them |
| Select.RemoveOne | debruijn/debruijn.py:168-178 | one path's removal under the flags fails only with a missing node and keeps the graph well formed |
| Select.RemovePathsF | debruijn/debruijn.py:152-179 | remove_paths fails only with a missing node and keeps the graph well formed |
| Select.RemovePathsExact | debruijn/debruijn.py:152-179 | remove_paths succeeds exactly when both flags are set or the doomed nodes of all paths are distinct and present; it then removes exactly those nodes |
| Select.RemovePaths | debruijn/debruijn.py:152-179 | the in-place loops leave the graph (or raise the fault) that RemovePathsF gives |
| Select.RemoveNothing | debruijn/debruijn.py:176-178 | removing no node leaves the graph unchanged |
| Select.AsReals | debruijn/debruijn.py:204 | the lengths compared as numbers, one for one |
| Select.FirstMax | debruijn/debruijn.py:200 | xs.index(max(xs)): a maximal element, the first one |
| Select.BestIndex | debruijn/debruijn.py:199-206 | the choice fails (stdev) exactly on fewer than two paths, with StatisticsError, and is otherwise a valid index |
| Select.BestIndexChoice | debruijn/debruijn.py:199-206 | differing averages: the first largest average; equal averages and differing lengths: the first longest path; both equal: the drawn index |
| Select.Without | debruijn/debruijn.py:207 | the list without the kept path is one shorter |
| Select.WithoutSpec | debruijn/debruijn.py:207 | it keeps the other paths, in order, and only them |
| Select.WithoutSubset | debruijn/debruijn.py:207 | every path to remove is one of the paths |
| Select.SelectBestF | debruijn/debruijn.py:181-209 | select_best_path keeps the graph well formed |
| Select.SelectBestExact | debruijn/debruijn.py:181-209 | it fails only on fewer than two paths or a missing node; it succeeds exactly when the removal of the other paths can; it then deletes exactly their doomed nodes |
| Select.SelectBestPath | debruijn/debruijn.py:181-209 | the in-place method leaves the graph (or raises the fault) that SelectBestF gives |
| Bubbles.RowHasSpec | debruijn/debruijn.py:247-251 | the inner loop over j succeeds exactly when some later predecessor has a lowest common ancestor (not None) with predecessor i |
| Bubbles.CommonInSpec | debruijn/debruijn.py:246-251 | the double loop sets bubble exactly when some pair of predecessors has a lowest common ancestor that is not None |
| Bubbles.FirstBubbleSpec | debruijn/debruijn.py:243-253 | the scan stops at the first node of the list that has such a pair: it has one and no earlier node does; it goes through when no node has one |
| Bubbles.BubbleSiteSpec | debruijn/debruijn.py:242-254 | no bubble exactly when no node has a pair of predecessors whose lowest common ancestor is not None; otherwise the site is the first such node in node order and its ancestor, if any, is a node |
| Bubbles.LastPairNode | debruijn/debruijn.py:248 | the ancestor of the last pair, when there is one, is a node |
| Bubbles.SolveBubbleF | debruijn/debruijn.py:223-234 | solve_bubble keeps the graph well formed |
| Bubbles.InteriorAvoidsEnds | debruijn/debruijn.py:177-178 | the interior of simple paths from a to t never contains a or t |
| Bubbles.SolveBubbleKeepsEnds | debruijn/debruijn.py:223-234 | solving a bubble keeps its ancestor and its descendant and leaves an induced subgraph |
| Bubbles.SolveBubbleInduced | debruijn/debruijn.py:223-234 | solve_bubble leaves an induced subgraph |
| Bubbles.BubblesSound | debruijn/debruijn.py:236-256 | a successful simplify_bubbles leaves an induced subgraph in which no bubble is left |
| Bubbles.BubblesStall | debruijn/debruijn.py:236-256 | when solving the bubble found gives the graph back unchanged for every draw, the recursion never ends: every bound on the rounds runs out |
| Bubbles.BubblesNoMerge | debruijn/debruijn.py:243-245 | a graph where no node has two predecessors is returned unchanged |
| Bubbles.BubbleWithoutAncestorFails | debruijn/debruijn.py:246-255 | a bubble whose last predecessor pair has lowest common ancestor None makes the call raise NodeNotFound |
| Bubbles.SelectBestStalls | debruijn/debruijn.py:207-208 | when every discarded path has two nodes or fewer, select_best_path without the end flags changes nothing |
| Bubbles.NoInterior | debruijn/debruijn.py:177-178 | paths of two nodes or fewer have no interior to remove |
| Bubbles.ScanRow | debruijn/debruijn.py:247-251 | the inner loop finds a pair exactly as RowHas says and leaves the last pair's ancestor |
| Bubbles.ScanPairs | debruijn/debruijn.py:246-251 | the double loop sets bubble exactly as CommonIn says, and ancestor_node is the ancestor of the last pair |
| Bubbles.FindBubble | debruijn/debruijn.py:242-253 | the scan over the nodes reports a bubble exactly when BubbleSite has one, with that node and ancestor |
| Bubbles.SolveBubble | debruijn/debruijn.py:223-234 | the in-place solve_bubble leaves the graph (or raises the fault) that SolveBubbleF gives |
| Bubbles.SimplifyBubbles | debruijn/debruijn.py:236-256 | the in-place recursion leaves the graph (or raises the fault) that BubblesF gives |
| Bubbles.BubbleRound | debruijn/debruijn.py:254-255 | one solved bubble followed by the recursive call agrees with BubblesF |
| Tips.FirstTipSpec | debruijn/debruijn.py:267-277 | the scan stops at the first node outside the end list with more than one predecessor (successor for out tips): no earlier node qualifies; it goes through exactly when there is none |
| Tips.GatherFails | debruijn/debruijn.py:272-274 | path_list is built exactly when every end is a node; otherwise has_path raises NodeNotFound naming a missing end |
| Tips.GatherErrSticks | debruijn/debruijn.py:272-274 | an error on a prefix of the ends is the error of the whole loop |
| Tips.GatherExact | debruijn/debruijn.py:271-274 | path_list holds exactly the simple paths between an end and the node, in the direction of the search |
| Tips.GatherShape | debruijn/debruijn.py:274 | each gathered path has two distinct nodes of the graph or more and ends at the node (starts there for out tips) |
| Tips.NodeNotDoomed | debruijn/debruijn.py:281-282 | the node where the branches meet is never deleted |
| Tips.TipEndsDoomed | debruijn/debruijn.py:281-282 | the tip end of every discarded path is deleted |
| Tips.TipRoundShrinks | debruijn/debruijn.py:278-284 | a round that goes on keeps the node, deletes the tip end of each discarded path and leaves an induced subgraph with strictly fewer nodes, so the recursion terminates |
| Tips.RoundDeletes | debruijn/debruijn.py:281-282 | select_best_path on the gathered paths leaves an induced subgraph with fewer nodes, keeping the node |
| Tips.RemovalShrinks | debruijn/debruijn.py:167-178 | deleting the doomed nodes of tip paths keeps the node and removes every tip end |
| Tips.TipsSound | debruijn/debruijn.py:259-285 | a successful solve_entry_tips (or solve_out_tips) leaves a well-formed induced subgraph |
| Tips.TipsDone | debruijn/debruijn.py:266-285 | a successful run started from the graph's own ends returns a graph on which a fresh round, with any draw, stops: no node outside the ends branches, or the first one that does is reached by at most one path |
| Tips.StopAnyDraw | debruijn/debruijn.py:266-281 | whether a round stops is decided before randint is drawn: it stops with every draw or with none |
| Tips.TipsStable | debruijn/debruijn.py:266-285 | when no node outside the ends branches, the graph is returned unchanged |
| Tips.TipsUnfold | debruijn/debruijn.py:278-284 | a round that selects a path continues with the starting (sink) nodes of the new graph, or raises select_best_path's error |
| Tips.FindTip | debruijn/debruijn.py:267-277 | the scanning loop finds the node FirstTip names |
| Tips.GatherPaths | debruijn/debruijn.py:271-274 | the gathering loop builds the path_list that Gather gives, or its error |
| Tips.SolveTips | debruijn/debruijn.py:259-285 | the in-place recursion leaves the graph (or raises the fault) that TipsF gives |
| Tips.TipsRound | debruijn/debruijn.py:278-284 | one selecting round followed by the recursive call agrees with TipsF |
| Tips.TipsAgain | debruijn/debruijn.py:283-284 | the recursive call with the recomputed starting (sink) nodes agrees with TipsF |
| Tips.SolveEntryTips | debruijn/debruijn.py:259-285 | solve_entry_tips leaves the graph (or raises the fault) that TipsF gives for entry tips |
| Tips.SolveOutTips | debruijn/debruijn.py:288-314 | solve_out_tips leaves the graph (or raises the fault) that TipsF gives for out tips |
| Boundary.StartsIn | debruijn/debruijn.py:323-327 | the listed nodes without predecessors, each once when the list is duplicate-free |
| Boundary.SinksIn | debruijn/debruijn.py:336-340 | the listed nodes without successors, each once when the list is duplicate-free |
| Boundary.StartsInOrder | debruijn/debruijn.py:323-327 | the kept nodes stay in the order of the list |
| Boundary.SinksInOrder | debruijn/debruijn.py:336-340 | the kept nodes stay in the order of the list |
| Boundary.Starting | debruijn/debruijn.py:317-327 | exactly the nodes without predecessors, each once, in node order |
| Boundary.Sinks | debruijn/debruijn.py:330-340 | exactly the nodes without successors, each once, in node order |
| Boundary.NoPreds | debruijn/debruijn.py:325 | an empty predecessor list means no edge into the node |
| Boundary.NoSuccs | debruijn/debruijn.py:338 | an empty successor list means no edge out of the node |
| Boundary.ReverseValid | debruijn/debruijn.py:330-340 | reversing every edge keeps the graph well formed |
| Boundary.SinksAreReversedStarts | debruijn/debruijn.py:330-340 | the sink nodes are the starting nodes of the reversed graph, in the same order |
| Boundary.GetStartingNodes | debruijn/debruijn.py:317-327 | the loop returns Starting of the graph |
| Boundary.GetSinkNodes | debruijn/debruijn.py:330-340 | the loop returns Sinks of the graph |
| Contigs.SpellFails | debruijn/debruijn.py:358-360 | spelling raises IndexError exactly on an empty path or an empty node after the first |
| Contigs.SpellWindows | debruijn/debruijn.py:358-360 | along a chain of overlapping m-mers the contig has length m + n - 1 and its window at i is the i-th node |
| Contigs.SpellThenCut | debruijn/debruijn.py:358-360 | cutting the spelled contig into m-mers gives back the path |
| Contigs.CutChained | debruijn/debruijn.py:124-125 | the m-mers cut from a string form a chain of overlapping m-mers |
| Contigs.CutThenSpell | debruijn/debruijn.py:358-360 | spelling the m-mers cut from a string gives back the string |
| Contigs.WalkChained | debruijn/debruijn.py:357 | a walk in a de Bruijn graph of k-mers is a chain of overlapping (k-1)-mers |
| Contigs.ContigOfWalk | debruijn/debruijn.py:357-361 | the contig of a walk has length k + n - 2, its (k-1)-mers are the walk's nodes and its i-th k-mer is the edge from node i to node i+1 |
| Contigs.SpellAllSpec | debruijn/debruijn.py:357-361 | one [contig, length] per path, in order, exactly when every path can be spelled; otherwise IndexError |
| Contigs.SpellAllHas | debruijn/debruijn.py:356-361 | a contig is spelled for a start and an end exactly when it is spelled from a simple path between them |
| Contigs.ContigRowExact | debruijn/debruijn.py:355-361 | for one start: a contig is listed exactly when it is spelled from a simple path to one of the ends |
| Contigs.ContigsExact | debruijn/debruijn.py:343-362 | get_contigs lists a contig exactly when it is spelled from a simple path between a starting node and an ending node |
| Contigs.ContigsDefined | debruijn/debruijn.py:343-362 | with every start and end in the graph and no empty node, get_contigs succeeds |
| Contigs.RowDefined | debruijn/debruijn.py:355-361 | the same for one start |
| Contigs.ContigsFails | debruijn/debruijn.py:343-362 | a failure is IndexError or NodeNotFound naming a start or an end missing from the graph |
| Contigs.RowFails | debruijn/debruijn.py:355-361 | the same for one start |
| Contigs.SpellErrSticks | debruijn/debruijn.py:358-360 | an error on a prefix of a path is the error of the whole spelling |
| Contigs.SpellAllErrSticks | debruijn/debruijn.py:357-361 | an error on a prefix of the paths is the error of the whole loop |
| Contigs.RowErrSticks | debruijn/debruijn.py:355-361 | an error on a prefix of the ends is the error of the row |
| Contigs.ContigsErrSticks | debruijn/debruijn.py:354-361 | an error on a prefix of the starts is the error of get_contigs |
| Contigs.SpellPath | debruijn/debruijn.py:358-360 | the concatenation loop returns the spelled contig or raises IndexError as Spell says |
| Contigs.SpellPaths | debruijn/debruijn.py:357-361 | the loop over the paths returns SpellAll |
| Contigs.ContigsFrom | debruijn/debruijn.py:355-361 | the loop over the ends returns ContigRow |
| Contigs.GetContigs | debruijn/debruijn.py:343-362 | the four nested loops return ContigsF |

## Left out

- Reading FASTQ files (`read_fastq`), the command line, `draw_graph` and `save_contigs` are I/O and are not modelled. `Kmers.BuildKmerDict` takes the reads as a sequence of strings.
- Python floats: averages are exact rationals (`real`). `stdev > 0` is modelled as "not all values equal", which is exact for real numbers; rounding is not modelled.
- Kmers.CutKmer: requires k >= 1; a slice with k <= 0 is not modelled.
- Build.DeBruijnOfReads: requires k >= 2, so that prefix and suffix are (k-1)-mers that are not empty.
- `random.randint`: replaced by a sequence of draws supplied by the caller, one per round, with the draw modulo the number of paths as the chosen index. Its distribution is not modelled.
- Bubbles.SimplifyBubbles: the recursion of `simplify_bubbles` is bounded by a `fuel` argument and reports `FuelExhausted` when it runs out. Termination of the unbounded original is not proved, and it does not hold: a round of `solve_bubble` need not remove a node (Bubbles.SelectBestStalls), and then the same bubble is found again and the recursion never ends (Bubbles.BubblesStall). The graph a -> n (weight 1), a -> b (5), b -> n (5) is such a case: the bubble at n has ancestor a, the path a, b, n has the larger mean weight (11/3 against 1) and is kept, and the discarded path a, n has no interior node. The model states the general fact, not this instance.
- networkx's `lowest_common_ancestor` raises on a graph that is not acyclic; the model does not check acyclicity. Paths.LCAComplete (a shared ancestor gives a lowest one) holds for acyclic graphs only; on a cyclic graph the model may return None for two nodes that share an ancestor. When several lowest common ancestors exist, the model takes the first in node order, while networkx's choice depends on its traversal.
- `all_simple_paths` with source equal to target yields nothing in the model (`Paths.SimplePathsExact` requires them to differ). `has_path` is not modelled on its own: the guard only filters pairs with no simple path, and those contribute nothing.
- Node and edge order: networkx's adjacency order is modelled by the insertion order of nodes and edges, which is what its dictionaries keep for the graphs this program builds.
- Tips: no lemma states that a single path from each end leaves the graph untouched in one round. Duplicated ends yield the same path twice, and `select_best_path` then deletes one copy's nodes.
- Contigs are a datatype `Contig(sequence, length)` instead of a two-element Python list.

# Graph-Algorithms in Dafny

A Dafny model of the graph core of the Graph-Algorithms project. The Python
program lets a user draw an undirected graph and runs three algorithms on it:

- a bipartite check, which tags the two sides `A` and `B`;
- a Hungarian (Kuhn) matching by augmenting paths;
- a colouring in the style of Brooks' theorem.

The model covers the graph store (`Graph`, `Node`, `Edge`) and those
algorithms, and proves what each operation computes.

Python object identity becomes an index arena. `GraphStore.Graph` is a class
with three fields:

- `store`: every node ever created;
- `nodeList`: the handles of the live nodes, in order;
- `edgeList`: the edges, in order.

A node's `neighbors` list holds handles. Deleted nodes stay in the arena and
are simply no longer listed, like a Python object that is no longer
referenced. An edge object's identity inside the algorithms is its place in
`edgeList`, so a matching is a set of edge positions.

`GraphStore.WellFormed` (`Graph.Valid()`) is the invariant every modelled
operation keeps. It says:

- live handles are distinct and in range;
- circle ids are distinct among live nodes;
- there are no self loops;
- for every pair of live nodes, the number of times one lists the other as a
  neighbour equals the number of edges joining them.

Adjacency is therefore mutual (`GraphStore.WellFormedIsSymmetric`).

The algorithms run as methods over a `Graph`. Each is proved against a
specification stated on an immutable `Snapshot` of the graph:

- BFS orders list exactly the nodes reachable by a walk (`Traversal.Reaches`).
- `greedy_coloring` is the fold `Greedy.GreedyRun` of one `Greedy.Step` per
  listed node.
- The cut-vertex search sets each low value and flag by the rules of Tarjan's
  algorithm, relative to the parent forest it records. That forest is
  depth-first: each call discovers exactly what it reaches through undiscovered
  nodes, and every neighbour discovered after a node lies below it in the
  forest (`CutVertex.DepthFirst`).
- Each matching round keeps a valid matching oriented from group B to group A
  and grows it by one edge.

The model follows the code where it departs from the textbook algorithm:

- `add_edge` compares `Edge` objects with ids in its duplicate test, which
  therefore never fires. The model allows parallel edges and counts them.
- `greedy_coloring` restarts its palette at `{0}` on every call
  (`Greedy.PaletteRestartClash`).
- `combine_coloring` only ever swaps two equal colours, so it changes nothing.
- `brooks_algorithm` raises in three situations that the model returns as
  error outcomes leaving the graph as it was (`Brooks.Outcome`):
  - `node_list[0]` on an empty graph;
  - `components[1]` when there are fewer than two components;
  - unpacking `None` when there is no triad.

  A fourth error, in the drawing step of `triad_bfs`, is not modelled (see
  "Left out").

## Model

| member | source | states |
|---|---|---|
| GraphNode.NewNode | GraphNode.py:14-20 | a new node carries the given id and place, radius 20, colour -1 (uncoloured), group `'None'` and no neighbours |
| GraphNode.RemoveFirst | GraphNode.py:30-36 | `list.remove`: one element fewer, and exactly one fewer copy of the removed neighbour |
| GraphNode.RemoveFirstSplit | GraphNode.py:30-36 | removing `x` from `a + [x] + b`, where `a` has no `x`, leaves `a + b`: the first occurrence goes |
| GraphNode.RemoveFirstMultiset | GraphNode.py:30-36 | removal takes exactly one copy of `x` out of the multiset of neighbours |
| GraphNode.RemoveFirstN | GraphNode.py:38-43 | removing `x` `n` times (once per copy in the informing node's list) removes exactly `n` copies |
| GraphNode.RemoveFirstNKeepsOthers | GraphNode.py:38-43 | those removals leave the count of every other neighbour unchanged |
| GraphNode.Without | GraphNode.py:38-43 | the neighbour list with every copy of `x` dropped contains no `x` |
| GraphNode.WithoutKeepsOthers | GraphNode.py:38-43 | dropping `x` keeps the count of every other neighbour |
| GraphNode.WithoutAbsent | GraphNode.py:38-43 | dropping an absent `x` changes nothing |
| GraphNode.WithoutRemoveFirst | GraphNode.py:30-36 | dropping every `x` after one removal is the same as dropping every `x` |
| GraphNode.RemoveEveryOccurrence | GraphNode.py:38-43 | removing `x` once per copy it has is the same as dropping every `x` |
| GraphNode.WithoutAfterRemovals | GraphNode.py:38-43 | any number of removals followed by dropping every `x` equals dropping every `x` |
| GraphEdge.SwapReverses | GraphEdge.py:75-81 | `swap` exchanges source and destination and keeps the id |
| GraphEdge.SwapTwice | GraphEdge.py:75-81 | swapping twice restores the edge |
| GraphEdge.SwapKeepsEndpoints | GraphEdge.py:75-81 | a swapped edge joins the same two nodes |
| GraphStore.WellFormedIsSymmetric | Graph.py:48-82 | in a well-formed graph listed neighbours are live, never the node itself, and adjacency is mutual |
| GraphStore.AdjacencyIsMutual | Graph.py:77-82 | `u` lists `v` exactly as many times as `v` lists `u` |
| GraphStore.EdgeCountSymmetric | Graph.py:77-82 | the number of edges joining `u` and `v` does not depend on their order |
| GraphStore.EdgeCountSwap | GraphEdge.py:75-81 | swapping one edge keeps every edge count |
| GraphStore.IdDeterminesNode | Graph.py:29-33 | in a well-formed graph a circle id names at most one live node |
| GraphStore.FirstEdgeFrom | Graph.py:153-164 | the first edge at or after `lo` linking the two ids in either direction, none before it; or none at all |
| GraphStore.NeighboursShareAnEdge | Graph.py:153-164 | for a node and a listed neighbour, `find_edge` on their ids finds an edge joining exactly them |
| GraphStore.EdgeEndsAreNeighbours | Graph.py:77-82 | the two ends of every edge list each other |
| GraphStore.LastWithId | Graph.py:66-70 | the last node with the id in a prefix of the node list, or proof that none there has it |
| GraphStore.IncidentSurvivorsPartition | Graph.py:98-105 | the edges touching the deleted id and the rest split the edge list between them |
| GraphStore.EdgeCountSurvivors | Graph.py:98-105 | removing the edges that touch another id keeps the edge count of a pair |
| GraphStore.DeleteKeepsWellFormed | Graph.py:84-115 | deleting a node keeps the graph well-formed, and no live node lists the deleted one afterwards |
| GraphStore.ListedOnceRemoved | Graph.py:110-111 | `node_list.remove(node)` leaves exactly the other nodes, still distinct |
| GraphStore.AddNodeKeepsArena | Graph.py:35-46 | appending a node keeps handles in range and distinct |
| GraphStore.AddNodeKeepsWellFormed | Graph.py:35-46 | appending a node with a fresh id and no neighbours keeps the graph well-formed |
| GraphStore.AddEdgeKeepsWellFormed | Graph.py:76-82 | joining two different live nodes both ways and appending the edge keeps the graph well-formed |
| GraphStore.NewEdgeCount | Graph.py:76-82 | the neighbour count after `add_neighbor` matches the edge count after the append |
| GraphStore.SwapKeepsWellFormed | GraphEdge.py:75-81 | swapping an edge keeps the graph well-formed |
| GraphStore.RelabelKeepsWellFormed | Graph.py:13-21 | changing node fields other than neighbours and id (colour, group, place) keeps the graph well-formed |
| GraphStore.ReadyToInform | GraphNode.py:38-43 | a live node of a well-formed graph meets what `inform_neighbors` needs: each neighbour lists it at least as often as it lists them |
| GraphStore.InformStep | GraphNode.py:38-43 | one `remove_neighbor` call in the loop finds the node still listed and advances the loop invariant |
| GraphStore.InformedIsRemoved | Graph.py:92-111 | informing the neighbours and unlisting the node is the removal `NodeRemoved` |
| GraphStore.FiltersReadIdsOnly | Graph.py:98-105 | the edge filter depends on circle ids only, so informing neighbours first does not change it |
| GraphStore.Graph.constructor | Graph.py:13-21 | an empty graph, well-formed |
| GraphStore.Graph.AddNeighbor | GraphNode.py:22-28 | appends the neighbour to the node's list and changes nothing else |
| GraphStore.Graph.RemoveNeighbor | GraphNode.py:30-36 | removes the first occurrence from the node's list and changes nothing else |
| GraphStore.Graph.InformNeighbors | GraphNode.py:38-43 | every other node loses one copy of `h` per copy it has in `h`'s list; `h` and the lists are unchanged |
| GraphStore.Graph.SetColor | GraphNode.py:90-97 | sets the colour, changes nothing else, keeps validity |
| GraphStore.Graph.SetGroup | GraphNode.py:108-115 | sets the group, changes nothing else, keeps validity |
| GraphStore.Graph.SetX | GraphNode.py:54-61 | sets x, changes nothing else, keeps validity |
| GraphStore.Graph.SetY | GraphNode.py:72-79 | sets y, changes nothing else, keeps validity |
| GraphStore.Graph.SetCircleId | GraphNode.py:126-133 | sets the id, and keeps validity when no other live node has it |
| GraphStore.Graph.SetEdgeSource | GraphEdge.py:30-37 | sets the source of one edge, nothing else |
| GraphStore.Graph.SetEdgeDest | GraphEdge.py:48-55 | sets the destination of one edge, nothing else |
| GraphStore.Graph.SetEdgeId | GraphEdge.py:66-73 | sets the id of one edge, nothing else |
| GraphStore.Graph.SwapEdge | GraphEdge.py:75-81 | reverses one edge in place and keeps validity |
| GraphStore.Graph.FindNodeById | Graph.py:29-33 | the first live node with the id, or `None` exactly when no live node has it |
| GraphStore.Graph.FindNodeByIdCoords | Graph.py:23-27 | the coordinates of the first live node with the id, or `None` exactly when none has it |
| GraphStore.Graph.FindEdge | Graph.py:153-164 | the first edge linking the two ids in either direction |
| GraphStore.Graph.FindNodeInRadius | Graph.py:136-151 | the id of the first node whose disc holds the point, or -1 when none does |
| GraphStore.Graph.AddNode | Graph.py:35-46 | appends a fresh node (radius 20, uncoloured, no group) and lists it; keeps validity when the id is new |
| GraphStore.Graph.FindEndpoints | Graph.py:64-70 | the last node with the source id, and the last other node with the destination id (none when the two ids are equal) |
| GraphStore.Graph.AddEdge | Graph.py:48-82 | when both endpoints are found, joins them both ways and appends the edge; otherwise changes nothing; keeps validity |
| GraphStore.Graph.PartitionEdges | Graph.py:98-105 | the edges touching the id and the remaining ones, in order |
| GraphStore.Graph.DeleteNode | Graph.py:84-115 | `None` and no change exactly when no live node has the id; otherwise the first such node is removed with its edges, and the removed edges' ids are returned in order |
| Bipartite.BfsInit | GraphAlgorithms.py:49-50 | colouring the start red and queueing it sets up the BFS invariants |
| Bipartite.BfsColourStep | GraphAlgorithms.py:54-56 | colouring an uncoloured neighbour with the other colour and queueing it keeps the invariants |
| Bipartite.NeighboursApart | GraphAlgorithms.py:57-58 | every proper 2-colouring separates two neighbours |
| Bipartite.SameColourTogether | GraphAlgorithms.py:52-58 | two nodes the BFS coloured alike are on the same side in every proper 2-colouring |
| Bipartite.BfsConflict | GraphAlgorithms.py:57-58 | a neighbour with the current node's colour means no proper 2-colouring exists |
| Bipartite.BfsFinish | GraphAlgorithms.py:52-60 | an emptied queue leaves the colouring closed: every coloured node's neighbours are coloured opposite |
| Bipartite.ScanNeighbours | GraphAlgorithms.py:53-58 | the neighbour loop either keeps the BFS invariants or reports that no proper 2-colouring exists |
| Bipartite.WithinStep | GraphAlgorithms.py:54-56 | colouring a neighbour of a node the search reached keeps every newly coloured node reachable from the start |
| Bipartite.WithinChanged | GraphAlgorithms.py:48-58 | a search changes only colours of nodes reachable from its start |
| Bipartite.BfsColoring | GraphAlgorithms.py:38-60 | the start is red; colours set before are kept and every node the search colours is reachable from the start; true: the start's component is coloured, with neighbours coloured opposite; false: the graph has no proper 2-colouring |
| Bipartite.ClosedSeparates | GraphAlgorithms.py:63-73 | a closed, complete colouring puts every two neighbours on different sides |
| Bipartite.ColourComponents | GraphAlgorithms.py:24-31 | every node coloured with neighbours apart, and every listed node that no earlier listed node reaches is red (it starts its own BFS); or no proper 2-colouring exists |
| Bipartite.ColourTurn | GraphAlgorithms.py:28-30 | the turn of one listed node: a BFS from it when it is still blank; the colouring stays closed, the node is coloured, and the red-leader record holds for one more node; a conflict rules out any proper 2-colouring |
| Bipartite.LeadersAfterSearch | GraphAlgorithms.py:29-30 | a BFS from a blank listed node, which the earlier ones do not reach, colours it red and colours only what it reaches, so coloured nodes stay reached from the listed prefix |
| Bipartite.LeadersSkip | GraphAlgorithms.py:29 | a listed node already coloured is reached from an earlier one, so skipping it keeps the record |
| Bipartite.Tag | GraphAlgorithms.py:63-73 | each live node's group becomes `A` for red and `B` otherwise; nothing else changes |
| Bipartite.IsBipartite | GraphAlgorithms.py:14-35 | true: every live node is tagged `A` or `B` and neighbours differ, only groups changed, and every listed node that no earlier listed node reaches is tagged `A`; false: no proper 2-colouring exists and nothing changed |
| AugmentingPaths.Walk | GraphAlgorithms.py:196-201 | the nodes a path of edges visits: the start, then each edge's destination |
| AugmentingPaths.WalkPrefix | GraphAlgorithms.py:199-201 | the walk of a prefix is a prefix of the walk |
| AugmentingPaths.StepPathAppend | GraphAlgorithms.py:199-202 | extending a BFS path by a step edge out of its end extends its walk by that edge's head |
| AugmentingPaths.PathChains | GraphAlgorithms.py:192-202 | consecutive edges of a BFS path meet head to tail, starting at the start |
| AugmentingPaths.ClosedReach | GraphAlgorithms.py:190-202 | a BFS path from the start never leaves a fully expanded visited set |
| AugmentingPaths.Longest | GraphAlgorithms.py:186-189 | `max_path` is empty or one of the offered paths, and no offered path is longer |
| AugmentingPaths.LongestIsFirstMaximum | GraphAlgorithms.py:186-189 | a non-empty `max_path` is the first offered path of its length: every earlier offer is strictly shorter |
| AugmentingPaths.LongestAppend | GraphAlgorithms.py:186-189 | a new path replaces `max_path` only when strictly longer |
| AugmentingPaths.ForwardEdgeLeaves | GraphAlgorithms.py:194-196 | for a neighbour, `find_edge` returns an edge, and when its head is the neighbour it is a BFS step |
| AugmentingPaths.SearchDequeue | GraphAlgorithms.py:180-188 | popping the queue head (and recording its path when it is a target) keeps the search invariant |
| AugmentingPaths.SearchVisit | GraphAlgorithms.py:196-202 | visiting a new neighbour and queueing its path keeps the search invariant |
| AugmentingPaths.OfferedInit | GraphAlgorithms.py:171-178 | the first queue (the start with an empty path, start visited, nothing offered) satisfies the offer record at depth 0 |
| AugmentingPaths.OfferedDequeue | GraphAlgorithms.py:183-189 | popping the head, and offering its path when it is in the end group, keeps the offer record: every visited end-group node no longer queued has been offered, once |
| AugmentingPaths.OfferedVisit | GraphAlgorithms.py:193-202 | visiting a new neighbour and queueing it keeps the offer record |
| AugmentingPaths.LayeredDequeue | GraphAlgorithms.py:183-189 | popping the head keeps queued lengths within one of its length and offered lengths sorted and no longer than it |
| AugmentingPaths.LayeredVisit | GraphAlgorithms.py:198-202 | queueing a path one edge longer than the current one keeps the layering |
| AugmentingPaths.OfferedFinish | GraphAlgorithms.py:181-207 | when the queue is empty, every end-group node a BFS path reaches is the end of an offered path, the offered ends are distinct and the offered lengths never decrease |
| AugmentingPaths.SearchFinish | GraphAlgorithms.py:204-207 | at the end, an empty `max_path` means no BFS path reaches the end group; otherwise it is a repetition-free BFS path into it |
| AugmentingPaths.ScanForward | GraphAlgorithms.py:192-202 | the neighbour loop keeps the search invariant and the offer record, and only adds to `visited` |
| AugmentingPaths.ExpandHead | GraphAlgorithms.py:180-202 | one turn of the BFS keeps the invariant, the offer record and `max_path`, and makes progress |
| AugmentingPaths.FindAugmentingPath | GraphAlgorithms.py:166-207 | `None` exactly when no BFS path reaches the end group; otherwise `Longest` of the paths offered in dequeue order, which are repetition-free BFS paths into the end group, one for each end-group node any BFS path reaches, with distinct ends and non-decreasing lengths; the answer is at least as long as each |
| Matching.EveryOther | GraphAlgorithms.py:119 | `path[::2]`: the edges at even places |
| Matching.DirectedIsOriented | GraphAlgorithms.py:209-228 | after `_direct_graph` matched edges leave B, unmatched edges leave A, and only directions changed |
| Matching.TaggedIsSided | GraphAlgorithms.py:14-35 | after a successful bipartite check every edge joins an A node and a B node |
| Matching.Alternates | GraphAlgorithms.py:166-207 | on an oriented graph a BFS path from an A node alternates A, B, A, … and its odd-placed edges are exactly the matched ones |
| Matching.AugmentingShape | GraphAlgorithms.py:103-120 | an augmenting path has odd length, matched edges exactly at odd places, and no repeated edge |
| Matching.AugmentedIsMatching | GraphAlgorithms.py:108-120 | exchanging the path's matched edges for its unmatched ones yields a matching |
| Matching.AugmentedGrows | GraphAlgorithms.py:108-120 | the exchange adds exactly one edge to the matching |
| Matching.AugmentedOffPath | GraphAlgorithms.py:108-120 | an edge off the path is in the new matching exactly when it was in the old one; path edges in it are even-placed |
| Matching.AugmentedEvens | GraphAlgorithms.py:119-120 | every even-placed edge of the path is in the new matching |
| Matching.AugmentedEdges | GraphAlgorithms.py:108-120 | `filtered.union(set(path[::2]))`: off-path edges keep their membership, all even-placed path edges are in, and no other path edge is |
| Matching.ReorientedKeeps | GraphAlgorithms.py:209-228 | reversing edges keeps the covered nodes and the matching property |
| Matching.GroupBKept | GraphAlgorithms.py:91 | reversing edges keeps `group_b` |
| Matching.DirectGraph | GraphAlgorithms.py:209-228 | each edge is reversed exactly when its direction disagrees with the matching; validity is kept |
| Matching.FilterMatching | GraphAlgorithms.py:108-115 | `filtered` is the matching minus the path's edges, and `nodes_in_matching` loses exactly the ends of the removed edges |
| Matching.CoverMatching | GraphAlgorithms.py:123-125 | adds the ends of every matched edge to `nodes_in_matching` |
| Matching.Augment | GraphAlgorithms.py:107-125 | the new matching is the exchange along the path, one edge larger, oriented, with its covered nodes tracked |
| Matching.CandidateAugments | GraphAlgorithms.py:102-105 | a path the search returns from a free A node towards free B nodes is augmenting |
| Matching.TryAugment | GraphAlgorithms.py:101-127 | one node of the loop either grows the matching by one edge or, when skipped, leaves everything and no augmenting path starts there |
| Matching.MatchingPass | GraphAlgorithms.py:99-129 | a pass over the nodes either grows the matching or, with `flag` false, proves no free A node has an augmenting path |
| Matching.PassedAll | GraphAlgorithms.py:128-129 | a pass without augmentation leaves nothing to augment |
| Matching.HungarianAlgorithm | GraphAlgorithms.py:75-132 | false: not bipartite and nothing changed; true: groups are A/B, nodes change only their group, edges are only reversed, the result is a matching oriented B to A with no augmenting path left from any free A node |
| Traversal.ReachStep | GraphAlgorithms.py:248-250 | a walk extends by a neighbour inside the allowed set |
| Traversal.ReachKeep | GraphAlgorithms.py:248-250 | anything reached other than the start lies in the allowed set |
| Traversal.ReachBack | GraphAlgorithms.py:248-250 | on a symmetric graph reachability from an allowed start is mutual |
| Traversal.ClosedHoldsReachable | GraphAlgorithms.py:239-253 | a set closed under allowed neighbours holds everything reachable from its members |
| Traversal.Reversed | GraphAlgorithms.py:487 | `[::-1]`: same length, place `i` holds place `len - 1 - i` |
| Traversal.ReversedMembers | GraphAlgorithms.py:487 | reversal keeps the members and their distinctness |
| Traversal.TourEnd | GraphAlgorithms.py:239-253 | when the queue or stack runs dry, every reachable node has been listed |
| Traversal.QueueNeighbours | GraphAlgorithms.py:248-250 | appends exactly the allowed, unvisited neighbours, in list order |
| Traversal.BfsStep | GraphAlgorithms.py:239-250 | one turn of the BFS keeps the tour invariant and makes progress |
| Traversal.BfsOrder | GraphAlgorithms.py:234-253 | the start first, no repeats, exactly the nodes reachable through allowed nodes |
| Traversal.BfsSpanningTree | GraphAlgorithms.py:230-253 | the start first, no repeats, exactly the nodes of the start's connected component |
| Traversal.ComponentSpanningTree | GraphAlgorithms.py:389-411 | the cut vertex first, no repeats, exactly the nodes reachable from it through nodes of the component |
| Traversal.TriadBfs | GraphAlgorithms.py:440-475 | `x` first, then the nodes reachable from `x` avoiding `y` and `z`, then `y`, then `z`; distinct when `y != z` |
| Traversal.PushNeighbours | GraphAlgorithms.py:380-382 | pushes exactly the neighbours other than the cut vertex, in list order |
| Traversal.DfsStep | GraphAlgorithms.py:374-382 | one pop of the DFS stack keeps the tour invariant and makes progress |
| Traversal.DfsComponent | GraphAlgorithms.py:371-384 | the component of `v` in the graph without the cut vertex, `v` first, no repeats, disjoint from what was visited before |
| Traversal.AddComponent | GraphAlgorithms.py:370-385 | appending a new component keeps the split invariant; the new component starts at `v` and none of its members was visited before |
| Traversal.Place | GraphAlgorithms.py:369 | the first place of a node in the neighbour list of the cut vertex, or its length when absent |
| Traversal.StartsIncrease | GraphAlgorithms.py:369-386 | under the component order, a later component starts at a later place of the neighbour list |
| Traversal.ComponentsInOrder | GraphAlgorithms.py:369-386 | the first members of the components come at strictly increasing places of the neighbour list, and no neighbour before the first member of component `a` lies in component `a` or a later one |
| Traversal.OrderGrows | GraphAlgorithms.py:369-386 | a component started at the `i`-th neighbour, unvisited and with no visited member, keeps the component order when appended |
| Traversal.ConnectedComponents | GraphAlgorithms.py:362-387 | each component is a neighbour of the cut vertex, its component without the cut vertex, then the cut vertex; components are disjoint and every neighbour of the cut vertex is in one; the components come in the order of their first members in the neighbour list of the cut vertex, and no neighbour listed before that first member lies in the component |
| Greedy.ColoursOf | GraphAlgorithms.py:298-300 | the colours worn by a list of nodes: each of theirs, and no more than there are nodes |
| Greedy.Palette | GraphAlgorithms.py:296 | `set(range(max_color_index + 1))` |
| Greedy.LeastFree | GraphAlgorithms.py:302-309 | the least colour from `c` up that is unused, or `top + 1` when all up to `top` are used |
| Greedy.LeastFreeIsMin | GraphAlgorithms.py:302-309 | the free colours run out exactly when the answer is `top + 1`; otherwise it is their minimum |
| Greedy.LeastFreeAtMostUsed | GraphAlgorithms.py:302-309 | the colour picked is at most the number of colours in use |
| Greedy.PickAtMostDegree | GraphAlgorithms.py:295-311 | a node never receives a colour above its degree |
| Greedy.Step | GraphAlgorithms.py:294-311 | one loop turn keeps nodes, edges and the store size, never lowers the palette top, and leaves its node coloured |
| Greedy.StepKeepsColoured | GraphAlgorithms.py:295 | a node that already has a colour keeps it through a turn, its own turn included |
| Greedy.GreedyRun | GraphAlgorithms.py:293-312 | the loop over the list keeps nodes, edges and the store size, and its palette top stays at least 0 |
| Greedy.StepRecolours | GraphAlgorithms.py:294-311 | one turn only recolours its own node and never shrinks the palette |
| Greedy.GreedyRecolours | GraphAlgorithms.py:288-312 | a whole run changes colours only |
| Greedy.GreedyKeepsWellFormed | GraphAlgorithms.py:288-312 | a run keeps the graph well-formed |
| Greedy.ColouredStays | GraphAlgorithms.py:295 | a colour given in a run stays to its end |
| Greedy.GreedyKeepsColours | GraphAlgorithms.py:295 | a node already coloured, or not yet reached, keeps its colour |
| Greedy.GreedyColoursListed | GraphAlgorithms.py:294-311 | every node of the list ends coloured |
| Greedy.GreedyWithinDegree | GraphAlgorithms.py:294-311 | a node coloured by the run gets a colour between 0 and its degree |
| Greedy.StepProper | GraphAlgorithms.py:295-311 | one turn keeps a proper partial colouring within the palette |
| Greedy.GreedyProper | GraphAlgorithms.py:288-312 | from a proper partial colouring with colours at most 0, the run stays proper and within its palette |
| Greedy.GreedyColoursGraph | GraphAlgorithms.py:288-312 | on an uncoloured graph, a list of all its nodes yields a proper colouring of every node |
| Greedy.PaletteRestartClash | GraphAlgorithms.py:293-304 | with a pre-coloured neighbour, the widened palette can hand out that neighbour's colour (a concrete three-node graph) |
| Greedy.StepByPalette | GraphAlgorithms.py:302-311 | the loop body's choice (new colour when none is free, else the least free one) is `Step` |
| Greedy.FreeColours | GraphAlgorithms.py:296-300 | the palette minus the colours of the node's neighbours |
| Greedy.Least | GraphAlgorithms.py:308 | `min(available_colors)` |
| Greedy.ColourNode | GraphAlgorithms.py:295-311 | one loop turn on the graph is `Step`; validity is kept |
| Greedy.GreedyColoring | GraphAlgorithms.py:288-312 | the graph afterwards is `GreedyRun` over the list; validity is kept |
| Greedy.CombineColoring | GraphAlgorithms.py:413-424 | the graph is left unchanged: the swap exchanges two equal colours |
| CutVertex.ValidIsLinked | GraphAlgorithms.py:323 | in a well-formed graph the neighbours the search follows are live |
| CutVertex.StampsDistinct | GraphAlgorithms.py:319-320 | discovery times are below the clock and no two nodes share one |
| CutVertex.DiscoverKeeps | GraphAlgorithms.py:319-320 | stamping `discovery[v] = low[v] = time_` keeps the search invariant |
| CutVertex.AdoptKeeps | GraphAlgorithms.py:326 | `parent[u] = v` for an undiscovered neighbour keeps the invariant |
| CutVertex.LowerKeeps | GraphAlgorithms.py:328-339 | lowering `low[v]` with `min` keeps `0 <= low <= disc` |
| CutVertex.FlagKeeps | GraphAlgorithms.py:331-336 | a flag set with a reason keeps the invariant |
| CutVertex.FinishKeeps | GraphAlgorithms.py:341 | a returning call keeps the invariant |
| CutVertex.PendingShrinks | GraphAlgorithms.py:324-327 | each recursive call discovers a new node, so the recursion ends |
| CutVertex.MinBelow | GraphAlgorithms.py:328-329 | after `low[v] = min(low[v], low[u])`, `low[v] <= low[u]` |
| CutVertex.DfsVertexCut | GraphAlgorithms.py:314-341 | stamps `v` with the current time and hands out later times only; entries of nodes discovered before are unchanged; it discovers exactly the nodes reachable from `v` through undiscovered nodes, each finished with a parent discovered by the same call; `low[v]` is the minimum over the neighbour list of `v` (`LowFold`) and the flag of `v` is set exactly under the root test or the non-root test; every finished node's neighbours discovered after it lie below it in the parent forest (`DepthFirst`, inside `Finished`) |
| CutVertex.EdgeStep | GraphAlgorithms.py:323-339 | undiscovered `u`: one more child, `parent[u] == v`, `low[v] = min(low[v], low[u])` and the flag of `v` set by the root or non-root test; a discovered non-parent `u`: `low[v] = min(low[v], discovery[u])` and nothing else changes; the parent: nothing changes |
| CutVertex.TreeEdge | GraphAlgorithms.py:324-336 | the recursive call on an undiscovered neighbour: one more child, `parent[u] == v`, `low[v] = min(low[v], low[u])`, and the flag of `v` set when it is a root with a second child or a non-root with `low[u] >= discovery[v]` |
| CutVertex.ChildDone | GraphAlgorithms.py:327-336 | on the return from the search of the child `u`: `parent[u] == v`, `low[v] = min(low[v], low[u])`, the flag by the two tests, and the loop state with one more child |
| CutVertex.Rejoin | GraphAlgorithms.py:328-336 | the updates after the child's return, on top of the loop state before the tree edge: the same low value and flag, with `u` scanned |
| CutVertex.BackEdge | GraphAlgorithms.py:338-339 | `low[v] = min(low[v], discovery[u])` for a discovered neighbour other than the parent keeps the loop state, with `u` scanned |
| CutVertex.ScanNeighbours | GraphAlgorithms.py:323-339 | after the loop every neighbour of `v` is discovered, `low[v]` is `LowFold` over the whole neighbour list, the child count matches the tree children, and the flag of `v` follows the root or non-root test |
| CutVertex.LowFoldIsMin | GraphAlgorithms.py:328-339 | the low value computed over a neighbour list is at most `discovery[h]`, every tree child's low value and every other non-parent neighbour's discovery time, and equals one of them |
| CutVertex.AfterChild | GraphAlgorithms.py:328-336 | `low[v] = min(low[v], low[u])`, then `articulation_point[v]` becomes true exactly under the root test (`children > 1`) or the non-root test (`low[u] >= discovery[v]`); discovery times and parents unchanged |
| CutVertex.Init | GraphAlgorithms.py:347-350 | the four dictionaries have exactly the listed nodes as keys, with -1, -1, `None` and `False` |
| CutVertex.InitInv | GraphAlgorithms.py:347-350 | the initial dictionaries (-1, -1, None, False) satisfy the invariant |
| CutVertex.FirstFlagged | GraphAlgorithms.py:357-360 | the first flagged node in list order, or `None` exactly when none is flagged |
| CutVertex.SearchAll | GraphAlgorithms.py:352-355 | after the loop every listed node is discovered, its low value is the minimum over its neighbour list, its flag is set exactly by the root or non-root test, and its neighbours discovered after it lie below it in the parent forest; the roots of the search forest are exactly the listed nodes that no earlier listed node reaches |
| CutVertex.ReachedGrows | GraphAlgorithms.py:353-355 | after the search from the `i`-th listed node, every node it discovered is reachable from one of the first `i + 1` listed nodes |
| CutVertex.DescendsKept | GraphAlgorithms.py:319-326 | a chain of parents through discovered nodes survives later steps of the search, which leave their entries alone |
| CutVertex.DescendsSince | GraphAlgorithms.py:324-327 | every node the search from `v` discovers lies below `v` in the parent forest |
| CutVertex.FinishDepthFirst | GraphAlgorithms.py:323-341 | when `dfs_vertex_cut(v)` returns, every neighbour of `v` discovered after `v` lies below it in the parent forest |
| CutVertex.ForestSearched | GraphAlgorithms.py:352-355 | once the loop has passed every listed node, the search state is `Searched` |
| CutVertex.ScanFlags | GraphAlgorithms.py:357-360 | returns `FirstFlagged` |
| CutVertex.TarjanCutVertex | GraphAlgorithms.py:343-360 | every listed node discovered, with its low value the minimum over its neighbour list (tree children's low values, other non-parent neighbours' discovery times) and its flag set exactly by the root test or the non-root test, its neighbours discovered after it below it in the parent forest (a depth-first forest); the roots are the listed nodes no earlier listed node reaches; result the first flagged node in list order |
| Brooks.MaxAt | GraphAlgorithms.py:265-274 | the place of the first node of highest degree in a prefix |
| Brooks.MinAt | GraphAlgorithms.py:265-274 | the place of the first node of least degree in a prefix |
| Brooks.MaxMinDegree | GraphAlgorithms.py:255-277 | `None` exactly for a graph without nodes; otherwise the first node of highest and the first of least degree |
| Brooks.DegreesDifferIffIrregular | GraphAlgorithms.py:486 | the least degree is below the highest exactly when not all degrees are equal |
| Brooks.JoinedAround | GraphAlgorithms.py:430-434 | with no triad at `x`, any two different neighbours of `x` are adjacent |
| Brooks.NoTriadAtIffNone | GraphAlgorithms.py:430-434 | the loop's test at `x` fails for every pair exactly when no triad is centred at `x` |
| Brooks.TriadAt | GraphAlgorithms.py:431-438 | the first neighbour pair in loop order forming a triad at `x` (every pair the loops test before it is joined), or proof that none does |
| Brooks.FindTriad | GraphAlgorithms.py:426-438 | a triad centred at the first node of the list that has one, with the first pair in loop order, or `None` when no node has one |
| Brooks.FirstPairUnique | GraphAlgorithms.py:431-434 | at most one pair of neighbours is the first triad pair at `x`, so `FirstPairAt` fixes the answer |
| Brooks.FirstCentreUnique | GraphAlgorithms.py:430-434 | at most one node is the first triad centre of the list, so `FirstCentre` fixes the answer |
| Brooks.ProperFromBlank | GraphAlgorithms.py:288-312 | on an uncoloured graph a greedy run over live nodes is a proper partial colouring |
| Brooks.NoColoursAmong | GraphAlgorithms.py:298-300 | uncoloured nodes contribute no colour |
| Brooks.PickAmongBlank | GraphAlgorithms.py:302-309 | a node with uncoloured neighbours gets colour 0 |
| Brooks.TriadEndsShareColour | GraphAlgorithms.py:508-509 | on an uncoloured graph, colouring `z` then `y` first gives both colour 0 |
| Brooks.ReversedDropsEnds | GraphAlgorithms.py:508 | the reversed triad order without its first two places holds the BFS part |
| Brooks.TriadEndsLive | GraphAlgorithms.py:426-438 | the ends of a triad are live and differ from its centre |
| Brooks.TriadTreeLive | GraphAlgorithms.py:440-475 | the triad order lists live nodes only |
| Brooks.DegreeBranch | GraphAlgorithms.py:486-488 | a list ending with the start, without repeats, holding exactly the start's component, coloured greedily; proper from an uncoloured graph |
| Brooks.CutTrees | GraphAlgorithms.py:498-499 | two lists, each ending with the cut vertex and holding exactly what the cut vertex reaches through its component |
| Brooks.ColourTwo | GraphAlgorithms.py:500-503 | greedy colouring of the first list, then the second; `combine_coloring` changes nothing |
| Brooks.ColourAroundCut | GraphAlgorithms.py:498-502 | the graph after the cut branch is the two greedy runs in turn over the two reversed trees |
| Brooks.CutBranch | GraphAlgorithms.py:493-504 | fewer than two components: the failure, graph unchanged; otherwise genuine, disjoint components in neighbour-list order, the trees of the first two of them, and the colouring around the cut |
| Brooks.TriadTree | GraphAlgorithms.py:508 | `z` first, `y` second, `x` last, distinct, the rest exactly the nodes reachable from `x` avoiding `y` and `z` |
| Brooks.ColourAroundTriad | GraphAlgorithms.py:508-509 | greedy colouring of the triad order; from an uncoloured graph proper, with `y` and `z` both colour 0 |
| Brooks.TriadBranch | GraphAlgorithms.py:506-509 | no triad: the failure, graph unchanged, no triad anywhere; otherwise the triad at the first centre with the first pair, its order (`z` first, `y` second, `x` last, distinct, the rest exactly what `x` reaches avoiding `y` and `z`) and its colouring; from an uncoloured graph proper, with `y` and `z` both colour 0 |
| Brooks.RegularBranch | GraphAlgorithms.py:491-509 | the cut-vertex search leaves every low value and flag by Tarjan's rules, relative to the depth-first parent forest it records (`Searched`); the cut branch is taken exactly when `FirstFlagged` finds a flagged node, and at that node: genuine, disjoint components in neighbour-list order, the two trees ending with the cut vertex and holding what it reaches through the first two components, and their colouring (`ColouredAroundCut`); otherwise the triad branch with everything `TriadBranch` states (`ColouredAroundTriad`) |
| Brooks.BrooksAlgorithm | GraphAlgorithms.py:477-509 | only colours change; fails exactly on an empty graph; takes the degree branch exactly when degrees differ; otherwise the cut-vertex search runs (`Searched`, relative to the depth-first parent forest it records) and the cut branch is taken exactly when the search's flags hold a flagged node, at the first one in list order, with everything `RegularBranch` states of it (`ColouredAroundCut`); else the triad branch at the first triad, with its order and colouring (`ColouredAroundTriad`); proper from an uncoloured graph in the degree and triad branches, with `y` and `z` colour 0 in the triad branch |

## Left out

- Everything drawn on screen is left out: `color_node`, `color_node_outline`, `color_edge`, `color_path`, `color_matching`, `direct_graph`, `print_in_gui` and the canvas. The `Red` colouring of the cut vertex is drawing only and is not part of this model.
- `time.sleep` and the `delay` parameters are left out, as is `index_to_rgb` (a display colour string).
- `delete_graph` is left out; it drives the canvas and repeats `delete_node`.
- `GraphStore.Graph.AddNode`: the `scale` argument is not modelled; every node gets radius 20, the default.
- `GraphStore.Graph.AddEdge`: the duplicate scan compares an `Edge`'s node objects with integer ids, so it never returns early; the model omits it, and parallel edges are counted in the edge-count invariant.
- GUIWindow.py is not part of this model.
- `Traversal.BfsOrder`, `Traversal.BfsSpanningTree`, `Traversal.ComponentSpanningTree`, `Traversal.TriadBfs`, `Brooks.DegreeBranch`, `Brooks.CutTrees`, `Brooks.TriadTree`: the contracts state which nodes are listed, without repeats, and which come first or last. They do not state the breadth-first order by distance, nor its reversal.
- `Traversal.ConnectedComponents`: the DFS order inside a component is not stated, only its members.
- `CutVertex.TarjanCutVertex`, `CutVertex.SearchAll`, `CutVertex.DfsVertexCut`: the search is proved to leave every low value as the minimum over the neighbour list and every flag as the root or non-root test, each call to discover exactly what it reaches through undiscovered nodes, every neighbour discovered after a node to lie below it in the parent forest, and the roots to be the listed nodes no earlier one reaches. Which child a node adopts first is not stated, so the contracts admit every depth-first forest with those roots, not only the one the neighbour order produces. That the flagged nodes are exactly the articulation points of the graph, and hence the same for every such forest, is not proved.
- `Brooks.RegularBranch`, `Brooks.BrooksAlgorithm`: the branch taken is tied to the flags of the recorded search. Because the flags are not proved to be the articulation points, the contracts do not by themselves show which of the cut and triad branches a regular graph takes.
- The four dictionaries of the cut-vertex search are threaded through the calls as one `Dfs` value rather than shared mutable dictionaries. The effect is the same, because every call hands its updates back.
- `Matching.HungarianAlgorithm`: the result is proved a matching with no augmenting path left among the paths the search follows. Each step of such a path is the edge `find_edge` returns for the two ends, taken only when it points away from the current node. That the result is a maximum matching, as the docstring of `hungarian_algorithm` promises, is not proved: neither the correspondence between these step paths and the alternating paths of the graph (with parallel edges the first edge `find_edge` returns may point the wrong way) nor Berge's theorem is part of this model.
- `AugmentingPaths.FindAugmentingPath`: the paths are offered in dequeue order, with distinct ends and non-decreasing lengths, and every reachable end-group node is offered. That each offered path is a shortest path to its end is not proved.
- `Brooks.TriadBranch`, `Brooks.BrooksAlgorithm`: `triad_bfs` draws, for each node it lists after `x`, the edge `find_edge(vertex, ancestor)`, where `ancestor` is the node dequeued just before it. When those two nodes are not adjacent (on `K3,3`, for one) `find_edge` returns `None` and `color_edge` fails reading `edge.id` (Graph.py:173). The model leaves drawing out, so in the model the triad branch always completes and colours.
- `Brooks.BrooksAlgorithm`: no properness claim is made for the cut-vertex branch, nor for a graph that starts with colours. `greedy_coloring` restarts its palette at `{0}` on every call, so a node can receive a colour that an earlier call gave a neighbour (`Greedy.PaletteRestartClash`).
- `Brooks.BrooksAlgorithm`: the bound of Brooks' theorem (at most the highest degree many colours) is not proved for the three branches; `Greedy.GreedyWithinDegree` bounds each node's colour by its own degree.

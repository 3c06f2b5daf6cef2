/**
 * The graph store (Graph.py, with the in-place node and edge updates of
 * GraphNode.py and GraphEdge.py). The graph owns an arena of node records
 * (`store`, indexed by `Handle`), the node list (handles in insertion order)
 * and the edge list. A deleted node keeps its arena slot, as a Python node
 * object outlives its removal from `node_list`.
 */
module GraphStore {

  import opened Wrappers
  import opened GraphNode
  import opened GraphEdge

  /** The three lists of a graph as one value. */
  datatype Snapshot = Snapshot(store: seq<Node>, nodes: seq<Handle>, edges: seq<Edge>)

  function Nbrs(s: Snapshot, h: Handle): seq<Handle>
  {
    if h < |s.store| then s.store[h].neighbors else []
  }

  function IdOf(s: Snapshot, h: Handle): int
  {
    if h < |s.store| then s.store[h].circleId else 0
  }

  function GroupOf(s: Snapshot, h: Handle): Group
  {
    if h < |s.store| then s.store[h].group else NoGroup
  }

  function ColourOf(s: Snapshot, h: Handle): int
  {
    if h < |s.store| then s.store[h].color else Uncoloured
  }

  /** The number of edges, in either direction, between `u` and `v`. */
  function EdgeCount(es: seq<Edge>, u: Handle, v: Handle): nat
  {
    if es == [] then 0
    else EdgeCount(es[..|es| - 1], u, v) + (if Joins(es[|es| - 1], u, v) then 1 else 0)
  }

  /** Every listed handle names an arena slot, and no node is listed twice. */
  ghost predicate Arena(s: Snapshot)
  {
    && (forall h | h in s.nodes :: h < |s.store|)
    && (forall i, j | 0 <= i < j < |s.nodes| :: s.nodes[i] != s.nodes[j])
  }

  /**
   * The graph invariant: live nodes carry distinct ids, neighbour lists and
   * edges mention live nodes only and no self loops, and `u` lists `v` exactly
   * as often as there are edges between them. The last clause makes adjacency
   * mutual with matching occurrence counts (see `AdjacencyIsMutual`).
   */
  ghost predicate WellFormed(s: Snapshot)
  {
    && Arena(s)
    && (forall h, k | h in s.nodes && k in s.nodes && h != k :: IdOf(s, h) != IdOf(s, k))
    && (forall h, k | h in s.nodes && k in Nbrs(s, h) :: k in s.nodes && k != h)
    && (forall e | e in s.edges :: e.source in s.nodes && e.dest in s.nodes && e.source != e.dest)
    && (forall u, v | u in s.nodes && v in s.nodes :: multiset(Nbrs(s, u))[v] == EdgeCount(s.edges, u, v))
  }

  /**
   * The part of the invariant the traversals rely on: listed nodes have arena
   * slots, neighbours are live and never the node itself, adjacency is mutual.
   */
  ghost predicate Symmetric(s: Snapshot)
  {
    && (forall h | h in s.nodes :: h < |s.store|)
    && (forall h, k | h in s.nodes && k in Nbrs(s, h) :: k in s.nodes && k != h)
    && (forall u, v | u in s.nodes && v in Nbrs(s, u) :: u in Nbrs(s, v))
  }

  /** The nodes listed in `node_list`. */
  function LiveSet(s: Snapshot): set<Handle>
  {
    set h | h in s.nodes
  }

  lemma WellFormedIsSymmetric(s: Snapshot)
    requires WellFormed(s)
    ensures Symmetric(s)
  {
    forall u, v | u in s.nodes && v in Nbrs(s, u)
      ensures u in Nbrs(s, v)
    {
      AdjacencyIsMutual(s, u, v);
    }
  }

  lemma {:induction false} EdgeCountSymmetric(es: seq<Edge>, u: Handle, v: Handle)
    ensures EdgeCount(es, u, v) == EdgeCount(es, v, u)
  {
    if es != [] {
      EdgeCountSymmetric(es[..|es| - 1], u, v);
    }
  }

  /** `u` lists `v` exactly as often as `v` lists `u`. */
  lemma AdjacencyIsMutual(s: Snapshot, u: Handle, v: Handle)
    requires WellFormed(s) && u in s.nodes && v in s.nodes
    ensures multiset(Nbrs(s, u))[v] == multiset(Nbrs(s, v))[u]
    ensures v in Nbrs(s, u) <==> u in Nbrs(s, v)
  {
    EdgeCountSymmetric(s.edges, u, v);
  }

  lemma EdgeCountAppend(es: seq<Edge>, e: Edge, u: Handle, v: Handle)
    ensures EdgeCount(es + [e], u, v) == EdgeCount(es, u, v) + (if Joins(e, u, v) then 1 else 0)
  {
    assert (es + [e])[..|es|] == es;
  }

  lemma {:induction false} EdgeCountUntouched(es: seq<Edge>, u: Handle, v: Handle)
    requires forall e | e in es :: e.source != u && e.dest != u
    ensures EdgeCount(es, u, v) == 0
  {
    if es != [] {
      assert forall e | e in es[..|es| - 1] :: e in es;
      EdgeCountUntouched(es[..|es| - 1], u, v);
    }
  }

  lemma {:induction false} EdgeCountWitness(es: seq<Edge>, u: Handle, v: Handle)
    requires EdgeCount(es, u, v) > 0
    ensures exists j :: 0 <= j < |es| && Joins(es[j], u, v)
  {
    var n := |es| - 1;
    if !Joins(es[n], u, v) {
      EdgeCountWitness(es[..n], u, v);
      var j :| 0 <= j < |es[..n]| && Joins(es[..n][j], u, v);
      assert es[j] == es[..n][j];
    }
  }

  lemma {:induction false} EdgeCountPositive(es: seq<Edge>, j: nat, u: Handle, v: Handle)
    requires j < |es| && Joins(es[j], u, v)
    ensures EdgeCount(es, u, v) > 0
  {
    var n := |es| - 1;
    if j < n {
      EdgeCountPositive(es[..n], j, u, v);
    }
  }

  /** Reversing one edge changes no pair's edge count. */
  lemma {:induction false} EdgeCountSwap(es: seq<Edge>, i: nat, u: Handle, v: Handle)
    requires i < |es|
    ensures EdgeCount(es[i := Swapped(es[i])], u, v) == EdgeCount(es, u, v)
  {
    var es' := es[i := Swapped(es[i])];
    var n := |es| - 1;
    if i == n {
      assert es'[..n] == es[..n];
    } else {
      assert es'[..n] == es[..n][i := Swapped(es[..n][i])];
      EdgeCountSwap(es[..n], i, u, v);
    }
  }

  /** Live handles with equal ids are the same node. */
  lemma IdDeterminesNode(s: Snapshot, h: Handle, k: Handle)
    requires WellFormed(s) && h in s.nodes && k in s.nodes && IdOf(s, h) == IdOf(s, k)
    ensures h == k
  {
  }

  // ---------------------------------------------------------------------
  // Lookups as values

  /** The edge's endpoints carry the ids `a` and `b`, in either order. */
  predicate LinksIds(s: Snapshot, e: Edge, a: int, b: int)
  {
    (IdOf(s, e.source) == a && IdOf(s, e.dest) == b) || (IdOf(s, e.source) == b && IdOf(s, e.dest) == a)
  }

  /** The first edge at or after position `lo` whose endpoint ids are `a` and `b`. */
  function FirstEdgeFrom(s: Snapshot, a: int, b: int, lo: nat): (r: Option<nat>)
    ensures r.Some? ==> lo <= r.value < |s.edges| && LinksIds(s, s.edges[r.value], a, b)
    ensures r.Some? ==> forall j | lo <= j < r.value :: !LinksIds(s, s.edges[j], a, b)
    ensures r.None? ==> forall j | lo <= j < |s.edges| :: !LinksIds(s, s.edges[j], a, b)
    decreases |s.edges| - lo
  {
    if lo >= |s.edges| then None
    else if LinksIds(s, s.edges[lo], a, b) then Some(lo)
    else FirstEdgeFrom(s, a, b, lo + 1)
  }

  /** What `find_edge(a, b)` returns: the position of the first matching edge. */
  function FirstEdgeBetween(s: Snapshot, a: int, b: int): Option<nat>
  {
    FirstEdgeFrom(s, a, b, 0)
  }

  /**
   * In a well-formed graph, `find_edge` on the ids of two neighbours finds an
   * edge, and that edge joins exactly those two nodes.
   */
  lemma NeighboursShareAnEdge(s: Snapshot, u: Handle, v: Handle)
    requires WellFormed(s) && u in s.nodes && v in Nbrs(s, u)
    ensures FirstEdgeBetween(s, IdOf(s, u), IdOf(s, v)).Some?
    ensures Joins(s.edges[FirstEdgeBetween(s, IdOf(s, u), IdOf(s, v)).value], u, v)
  {
    assert v in s.nodes;
    assert multiset(Nbrs(s, u))[v] > 0;
    EdgeCountWitness(s.edges, u, v);
    var j :| 0 <= j < |s.edges| && Joins(s.edges[j], u, v);
    assert LinksIds(s, s.edges[j], IdOf(s, u), IdOf(s, v));
    var r := FirstEdgeBetween(s, IdOf(s, u), IdOf(s, v));
    var e := s.edges[r.value];
    assert e in s.edges;
    if IdOf(s, e.source) == IdOf(s, u) && IdOf(s, e.dest) == IdOf(s, v) {
      IdDeterminesNode(s, e.source, u);
      IdDeterminesNode(s, e.dest, v);
    } else {
      IdDeterminesNode(s, e.source, v);
      IdDeterminesNode(s, e.dest, u);
    }
  }

  /** The two ends of an edge of a well-formed graph list each other. */
  lemma EdgeEndsAreNeighbours(s: Snapshot, i: nat)
    requires WellFormed(s) && i < |s.edges|
    ensures s.edges[i].dest in Nbrs(s, s.edges[i].source)
    ensures s.edges[i].source in Nbrs(s, s.edges[i].dest)
  {
    var e := s.edges[i];
    assert e in s.edges;
    EdgeCountPositive(s.edges, i, e.source, e.dest);
    EdgeCountPositive(s.edges, i, e.dest, e.source);
    assert multiset(Nbrs(s, e.source))[e.dest] > 0;
    assert multiset(Nbrs(s, e.dest))[e.source] > 0;
  }

  /** The node at position `i` is the first listed node carrying `id`. */
  ghost predicate FirstWithId(s: Snapshot, id: int, i: nat)
  {
    i < |s.nodes| && IdOf(s, s.nodes[i]) == id && forall k | 0 <= k < i :: IdOf(s, s.nodes[k]) != id
  }

  /** The node the scan of `add_edge` settles on: the last of the first `n` listed nodes carrying `id`. */
  function LastWithId(s: Snapshot, id: int, n: nat): (r: Option<Handle>)
    requires n <= |s.nodes|
    ensures r.Some? ==> r.value in s.nodes[..n] && r.value in s.nodes && IdOf(s, r.value) == id
    ensures r.None? ==> forall k | 0 <= k < n :: IdOf(s, s.nodes[k]) != id
  {
    if n == 0 then None
    else if IdOf(s, s.nodes[n - 1]) == id then Some(s.nodes[n - 1])
    else
      var r := LastWithId(s, id, n - 1);
      assert s.nodes[..n - 1] <= s.nodes[..n];
      r
  }

  /** The point lies within the node's radius (squared distance, as `find_node_in_radius` compares). */
  predicate InRadius(s: Snapshot, h: Handle, x: int, y: int)
  {
    h < |s.store| &&
    var n := s.store[h];
    (x - n.x) * (x - n.x) + (y - n.y) * (y - n.y) <= n.radius * n.radius
  }

  // ---------------------------------------------------------------------
  // Deleting a node, as values

  /** The edge has an endpoint carrying `id`, the test `delete_node` applies. */
  predicate TouchesId(s: Snapshot, e: Edge, id: int)
  {
    IdOf(s, e.source) == id || IdOf(s, e.dest) == id
  }

  /** The edges of `es` that touch `id`, in list order. */
  function Incident(s: Snapshot, es: seq<Edge>, id: int): seq<Edge>
  {
    if es == [] then []
    else Incident(s, es[..|es| - 1], id) + (if TouchesId(s, es[|es| - 1], id) then [es[|es| - 1]] else [])
  }

  /** The edges of `es` that do not touch `id`, in list order. */
  function Survivors(s: Snapshot, es: seq<Edge>, id: int): seq<Edge>
  {
    if es == [] then []
    else Survivors(s, es[..|es| - 1], id) + (if TouchesId(s, es[|es| - 1], id) then [] else [es[|es| - 1]])
  }

  /** `[edge.id for edge in es]`. */
  function IdsOf(es: seq<Edge>): (r: seq<int>)
    ensures |r| == |es|
  {
    if es == [] then [] else IdsOf(es[..|es| - 1]) + [es[|es| - 1].id]
  }

  /** Every edge lands on exactly one side, each side keeps list order, and only touching edges are removed. */
  lemma {:induction false} IncidentSurvivorsPartition(s: Snapshot, es: seq<Edge>, id: int)
    ensures |Incident(s, es, id)| + |Survivors(s, es, id)| == |es|
    ensures forall e | e in Incident(s, es, id) :: e in es && TouchesId(s, e, id)
    ensures forall e | e in Survivors(s, es, id) :: e in es && !TouchesId(s, e, id)
  {
    if es != [] {
      var n := |es| - 1;
      IncidentSurvivorsPartition(s, es[..n], id);
      assert es == es[..n] + [es[n]];
    }
  }

  /** Dropping the edges that touch `id` keeps the count of every pair not involving `id`. */
  lemma {:induction false} EdgeCountSurvivors(s: Snapshot, es: seq<Edge>, id: int, u: Handle, v: Handle)
    requires IdOf(s, u) != id && IdOf(s, v) != id
    ensures EdgeCount(Survivors(s, es, id), u, v) == EdgeCount(es, u, v)
  {
    if es != [] {
      var n := |es| - 1;
      EdgeCountSurvivors(s, es[..n], id, u, v);
      var kept := Survivors(s, es[..n], id);
      if TouchesId(s, es[n], id) {
        assert !Joins(es[n], u, v);
        assert Survivors(s, es, id) == kept;
      } else {
        assert Survivors(s, es, id) == kept + [es[n]];
        EdgeCountAppend(kept, es[n], u, v);
      }
    }
  }

  /**
   * `t` is `s` after the node at position `i` left: it is out of the node
   * list and out of every live neighbour list; its own record and the slots
   * of nodes deleted earlier are untouched.
   */
  ghost predicate NodeRemoved(s: Snapshot, t: Snapshot, i: nat)
  {
    && i < |s.nodes|
    && s.nodes[i] < |s.store|
    && t.nodes == s.nodes[..i] + s.nodes[i + 1..]
    && |t.store| == |s.store|
    && t.store[s.nodes[i]] == s.store[s.nodes[i]]
    && (forall k | 0 <= k < |s.store| && k in t.nodes ::
          t.store[k] == s.store[k].(neighbors := Without(s.store[k].neighbors, s.nodes[i])))
    && (forall k | 0 <= k < |s.store| && k !in s.nodes :: t.store[k] == s.store[k])
  }

  lemma DeleteKeepsWellFormed(s: Snapshot, t: Snapshot, i: nat, id: int)
    requires WellFormed(s) && i < |s.nodes| && IdOf(s, s.nodes[i]) == id
    requires NodeRemoved(s, t, i)
    requires t.edges == Survivors(s, s.edges, id)
    ensures WellFormed(t)
    ensures forall k | k in t.nodes :: s.nodes[i] !in Nbrs(t, k)
  {
    var h := s.nodes[i];
    ListedOnceRemoved(s.nodes, i, t.nodes);
    assert forall k | k in t.nodes :: k in s.nodes && k < |t.store|;
    assert Arena(t);
    assert forall k | k in t.nodes :: IdOf(s, k) != id;
    assert forall k | 0 <= k < |s.store| :: IdOf(t, k) == IdOf(s, k);
    assert forall k | k in t.nodes :: Nbrs(t, k) == Without(Nbrs(s, k), h);
    IncidentSurvivorsPartition(s, s.edges, id);
    forall k, m | k in t.nodes && m in Nbrs(t, k)
      ensures m in t.nodes && m != k
    {
      assert h !in Without(Nbrs(s, k), h);
      WithoutKeepsOthers(Nbrs(s, k), h, m);
      assert m in Nbrs(s, k);
      assert m in s.nodes && m != h;
    }
    forall e | e in t.edges
      ensures e.source in t.nodes && e.dest in t.nodes && e.source != e.dest
    {
      assert e in s.edges && !TouchesId(s, e, id);
    }
    forall u, v | u in t.nodes && v in t.nodes
      ensures multiset(Nbrs(t, u))[v] == EdgeCount(t.edges, u, v)
    {
      WithoutKeepsOthers(Nbrs(s, u), h, v);
      EdgeCountSurvivors(s, s.edges, id, u, v);
    }
  }

  /** Taking out the entry at position `i` of a list without repeats keeps exactly the other entries. */
  lemma ListedOnceRemoved(nodes: seq<Handle>, i: nat, rest: seq<Handle>)
    requires i < |nodes| && rest == nodes[..i] + nodes[i + 1..]
    requires forall a, b | 0 <= a < b < |nodes| :: nodes[a] != nodes[b]
    ensures forall k :: k in rest <==> k in nodes && k != nodes[i]
    ensures forall a, b | 0 <= a < b < |rest| :: rest[a] != rest[b]
  {
    assert nodes == nodes[..i] + [nodes[i]] + nodes[i + 1..];
    forall k | k in rest
      ensures k != nodes[i]
    {
      var j :| 0 <= j < |rest| && rest[j] == k;
      if j < i {
        assert nodes[j] == k;
      } else {
        assert nodes[j + 1] == k;
      }
    }
    assert forall a | 0 <= a < |rest| :: rest[a] == if a < i then nodes[a] else nodes[a + 1];
  }

  // ---------------------------------------------------------------------
  // The other updates, as values

  /** The arena after `add_neighbor`: `n` appended to `h`'s list. */
  function WithNeighbor(store: seq<Node>, h: Handle, n: Handle): (r: seq<Node>)
    requires h < |store|
  {
    store[h := store[h].(neighbors := store[h].neighbors + [n])]
  }

  /** The handle of a new arena slot is not listed yet. */
  lemma AddNodeKeepsArena(s: Snapshot, n: Node)
    requires Arena(s)
    ensures Arena(Snapshot(s.store + [n], s.nodes + [|s.store|], s.edges))
  {
    var t := Snapshot(s.store + [n], s.nodes + [|s.store|], s.edges);
    forall i, j | 0 <= i < j < |t.nodes|
      ensures t.nodes[i] != t.nodes[j]
    {
      assert t.nodes[i] == s.nodes[i] && s.nodes[i] in s.nodes;
      if j < |s.nodes| {
        assert t.nodes[j] == s.nodes[j];
      }
    }
  }

  lemma AddNodeKeepsWellFormed(s: Snapshot, n: Node)
    requires WellFormed(s) && n.neighbors == []
    requires forall h | h in s.nodes :: IdOf(s, h) != n.circleId
    ensures WellFormed(Snapshot(s.store + [n], s.nodes + [|s.store|], s.edges))
  {
    var t := Snapshot(s.store + [n], s.nodes + [|s.store|], s.edges);
    var added := |s.store|;
    AddNodeKeepsArena(s, n);
    assert forall h | h in s.nodes :: Nbrs(t, h) == Nbrs(s, h) && IdOf(t, h) == IdOf(s, h);
    assert forall h | h in t.nodes :: h in s.nodes || h == added;
    assert Nbrs(t, added) == [];
    forall u, v | u in t.nodes && v in t.nodes
      ensures multiset(Nbrs(t, u))[v] == EdgeCount(t.edges, u, v)
    {
      if u == added {
        EdgeCountUntouched(s.edges, added, v);
      } else if v == added {
        EdgeCountUntouched(s.edges, added, u);
        EdgeCountSymmetric(s.edges, u, v);
      }
    }
  }

  lemma AddEdgeKeepsWellFormed(s: Snapshot, src: Handle, dst: Handle, edgeId: int)
    requires WellFormed(s) && src in s.nodes && dst in s.nodes && src != dst
    ensures WellFormed(Snapshot(WithNeighbor(WithNeighbor(s.store, src, dst), dst, src),
                                s.nodes, s.edges + [Edge(src, dst, edgeId)]))
  {
    var t := Snapshot(WithNeighbor(WithNeighbor(s.store, src, dst), dst, src), s.nodes, s.edges + [Edge(src, dst, edgeId)]);
    assert forall h :: Nbrs(t, h) == Nbrs(s, h) + (if h == src then [dst] else if h == dst then [src] else []);
    assert forall h :: IdOf(t, h) == IdOf(s, h);
    forall u, v | u in t.nodes && v in t.nodes
      ensures multiset(Nbrs(t, u))[v] == EdgeCount(t.edges, u, v)
    {
      assert multiset(Nbrs(s, u))[v] == EdgeCount(s.edges, u, v);
      NewEdgeCount(Nbrs(s, u), Nbrs(t, u), s.edges, Edge(src, dst, edgeId), u, v);
    }
  }

  /**
   * The count clause for one pair after `add_edge`: `u` gains the other
   * endpoint exactly when it is an endpoint of the new edge.
   */
  lemma NewEdgeCount(before: seq<Handle>, after: seq<Handle>, es: seq<Edge>, e: Edge, u: Handle, v: Handle)
    requires e.source != e.dest
    requires after == before + (if u == e.source then [e.dest] else if u == e.dest then [e.source] else [])
    requires multiset(before)[v] == EdgeCount(es, u, v)
    ensures multiset(after)[v] == EdgeCount(es + [e], u, v)
  {
    EdgeCountAppend(es, e, u, v);
  }

  lemma SwapKeepsWellFormed(s: Snapshot, i: nat)
    requires WellFormed(s) && i < |s.edges|
    ensures WellFormed(s.(edges := s.edges[i := Swapped(s.edges[i])]))
  {
    var t := s.(edges := s.edges[i := Swapped(s.edges[i])]);
    assert s.edges[i] in s.edges;
    forall e | e in t.edges
      ensures e.source in t.nodes && e.dest in t.nodes && e.source != e.dest
    {
      var j :| 0 <= j < |t.edges| && t.edges[j] == e;
      assert s.edges[j] in s.edges;
    }
    forall u, v | u in t.nodes && v in t.nodes
      ensures multiset(Nbrs(t, u))[v] == EdgeCount(t.edges, u, v)
    {
      EdgeCountSwap(s.edges, i, u, v);
    }
  }

  /** Changing fields other than ids and neighbour lists keeps the invariant. */
  lemma RelabelKeepsWellFormed(s: Snapshot, t: Snapshot)
    requires WellFormed(s)
    requires t.nodes == s.nodes && t.edges == s.edges && |t.store| == |s.store|
    requires forall h | 0 <= h < |s.store| :: t.store[h].neighbors == s.store[h].neighbors && t.store[h].circleId == s.store[h].circleId
    ensures WellFormed(t)
  {
    assert forall h :: Nbrs(t, h) == Nbrs(s, h) && IdOf(t, h) == IdOf(s, h);
  }

  // ---------------------------------------------------------------------
  // The graph object

  class Graph {
    var store: seq<Node>
    var nodeList: seq<Handle>
    var edgeList: seq<Edge>

    function Snap(): Snapshot
      reads this
    {
      Snapshot(store, nodeList, edgeList)
    }

    ghost predicate Valid()
      reads this
    {
      WellFormed(Snap())
    }

    /** An empty graph. */
    constructor ()
      ensures store == [] && nodeList == [] && edgeList == []
      ensures Valid()
    {
      store, nodeList, edgeList := [], [], [];
    }

    // -- GraphNode.py: updates of one node record ------------------------

    /** `add_neighbor`: append at the end, without deduplication. */
    method AddNeighbor(h: Handle, n: Handle)
      requires h < |store|
      modifies this
      ensures store == WithNeighbor(old(store), h, n)
      ensures nodeList == old(nodeList) && edgeList == old(edgeList)
    {
      store := store[h := store[h].(neighbors := store[h].neighbors + [n])];
    }

    /** `remove_neighbor`: drop the first occurrence; `list.remove` raises when there is none. */
    method RemoveNeighbor(h: Handle, n: Handle)
      requires h < |store| && n in store[h].neighbors
      modifies this
      ensures store == old(store)[h := old(store)[h].(neighbors := RemoveFirst(old(store)[h].neighbors, n))]
      ensures nodeList == old(nodeList) && edgeList == old(edgeList)
    {
      store := store[h := store[h].(neighbors := RemoveFirst(store[h].neighbors, n))];
    }

    /**
     * `inform_neighbors`: every listed neighbour drops `h` once per entry.
     * The node's own list is unchanged. The requires says each removal finds
     * its entry (else `list.remove` raises); no self loop is listed.
     */
    method InformNeighbors(h: Handle)
      requires h < |store| && h !in store[h].neighbors
      requires forall k | k in store[h].neighbors :: k < |store|
      requires forall k | 0 <= k < |store| && k != h :: multiset(store[h].neighbors)[k] <= multiset(store[k].neighbors)[h]
      modifies this
      ensures |store| == |old(store)| && store[h] == old(store)[h]
      ensures forall k | 0 <= k < |store| && k != h ::
                store[k] == old(store)[k].(neighbors := RemoveFirstN(old(store)[k].neighbors, h, multiset(old(store)[h].neighbors)[k]))
      ensures nodeList == old(nodeList) && edgeList == old(edgeList)
    {
      var own := store[h].neighbors;
      ghost var before := store;
      for i := 0 to |own|
        invariant nodeList == old(nodeList) && edgeList == old(edgeList)
        invariant multiset(own[..i]) <= multiset(own)
        invariant InformedUpTo(before, store, h, multiset(own[..i]))
      {
        var k := own[i];
        PrefixCount(own, i);
        assert k in own;
        InformStep(before, store, h, multiset(own[..i]), k);
        RemoveNeighbor(k, h);
      }
      assert own[..|own|] == own;
    }

    /** The `color` setter. */
    method SetColor(h: Handle, c: int)
      requires h < |store|
      modifies this
      ensures store == old(store)[h := old(store)[h].(color := c)]
      ensures nodeList == old(nodeList) && edgeList == old(edgeList)
      ensures old(Valid()) ==> Valid()
    {
      store := store[h := store[h].(color := c)];
      if old(Valid()) {
        RelabelKeepsWellFormed(old(Snap()), Snap());
      }
    }

    /** The `group` setter. */
    method SetGroup(h: Handle, g: Group)
      requires h < |store|
      modifies this
      ensures store == old(store)[h := old(store)[h].(group := g)]
      ensures nodeList == old(nodeList) && edgeList == old(edgeList)
      ensures old(Valid()) ==> Valid()
    {
      store := store[h := store[h].(group := g)];
      if old(Valid()) {
        RelabelKeepsWellFormed(old(Snap()), Snap());
      }
    }

    /** The `x` setter. */
    method SetX(h: Handle, x: int)
      requires h < |store|
      modifies this
      ensures store == old(store)[h := old(store)[h].(x := x)]
      ensures nodeList == old(nodeList) && edgeList == old(edgeList)
      ensures old(Valid()) ==> Valid()
    {
      store := store[h := store[h].(x := x)];
      if old(Valid()) {
        RelabelKeepsWellFormed(old(Snap()), Snap());
      }
    }

    /** The `y` setter. */
    method SetY(h: Handle, y: int)
      requires h < |store|
      modifies this
      ensures store == old(store)[h := old(store)[h].(y := y)]
      ensures nodeList == old(nodeList) && edgeList == old(edgeList)
      ensures old(Valid()) ==> Valid()
    {
      store := store[h := store[h].(y := y)];
      if old(Valid()) {
        RelabelKeepsWellFormed(old(Snap()), Snap());
      }
    }

    /** The `circle_id` setter; the invariant survives when no other live node carries the new id. */
    method SetCircleId(h: Handle, id: int)
      requires h < |store|
      modifies this
      ensures store == old(store)[h := old(store)[h].(circleId := id)]
      ensures nodeList == old(nodeList) && edgeList == old(edgeList)
      ensures old(Valid()) && (forall k | k in nodeList && k != h :: IdOf(Snap(), k) != id) ==> Valid()
    {
      store := store[h := store[h].(circleId := id)];
      if old(Valid()) && (forall k | k in nodeList && k != h :: IdOf(Snap(), k) != id) {
        var s, t := old(Snap()), Snap();
        assert forall k :: Nbrs(t, k) == Nbrs(s, k);
        assert forall k | k != h :: IdOf(t, k) == IdOf(s, k);
      }
    }

    // -- GraphEdge.py: updates of one edge record ------------------------

    /** The `source` setter. */
    method SetEdgeSource(i: nat, n: Handle)
      requires i < |edgeList|
      modifies this
      ensures edgeList == old(edgeList)[i := old(edgeList)[i].(source := n)]
      ensures store == old(store) && nodeList == old(nodeList)
    {
      edgeList := edgeList[i := edgeList[i].(source := n)];
    }

    /** The `dest` setter. */
    method SetEdgeDest(i: nat, n: Handle)
      requires i < |edgeList|
      modifies this
      ensures edgeList == old(edgeList)[i := old(edgeList)[i].(dest := n)]
      ensures store == old(store) && nodeList == old(nodeList)
    {
      edgeList := edgeList[i := edgeList[i].(dest := n)];
    }

    /** The `id` setter. */
    method SetEdgeId(i: nat, id: int)
      requires i < |edgeList|
      modifies this
      ensures edgeList == old(edgeList)[i := old(edgeList)[i].(id := id)]
      ensures store == old(store) && nodeList == old(nodeList)
    {
      edgeList := edgeList[i := edgeList[i].(id := id)];
    }

    /** `swap`, through the two setters: the edge now runs the other way. */
    method SwapEdge(i: nat)
      requires i < |edgeList|
      modifies this
      ensures edgeList == old(edgeList)[i := Swapped(old(edgeList)[i])]
      ensures store == old(store) && nodeList == old(nodeList)
      ensures old(Valid()) ==> Valid()
    {
      var temp := edgeList[i].source;
      SetEdgeSource(i, edgeList[i].dest);
      SetEdgeDest(i, temp);
      if old(Valid()) {
        SwapKeepsWellFormed(old(Snap()), i);
      }
    }

    // -- Graph.py -----------------------------------------------------------

    /** `find_node_by_id`: the first listed node carrying `id`. */
    method FindNodeById(id: int) returns (r: Option<Handle>)
      ensures r.Some? ==> exists i: nat :: FirstWithId(Snap(), id, i) && nodeList[i] == r.value
      ensures r.None? <==> forall i | 0 <= i < |nodeList| :: IdOf(Snap(), nodeList[i]) != id
    {
      for i := 0 to |nodeList|
        invariant forall k | 0 <= k < i :: IdOf(Snap(), nodeList[k]) != id
      {
        if IdOf(Snap(), nodeList[i]) == id {
          assert FirstWithId(Snap(), id, i);
          return Some(nodeList[i]);
        }
      }
      return None;
    }

    /** `find_node_by_id_coords`: the position of the first listed node carrying `id`. */
    method FindNodeByIdCoords(id: int) returns (r: Option<(int, int)>)
      requires Arena(Snap())
      ensures r.Some? ==> exists i: nat :: FirstWithId(Snap(), id, i) && nodeList[i] < |store|
                            && r.value == (store[nodeList[i]].x, store[nodeList[i]].y)
      ensures r.None? <==> forall i | 0 <= i < |nodeList| :: IdOf(Snap(), nodeList[i]) != id
    {
      for i := 0 to |nodeList|
        invariant forall k | 0 <= k < i :: IdOf(Snap(), nodeList[k]) != id
      {
        var node := nodeList[i];
        assert node in nodeList;
        if store[node].circleId == id {
          assert FirstWithId(Snap(), id, i);
          return Some((store[node].x, store[node].y));
        }
      }
      return None;
    }

    /** `find_edge(a, b)`: the first edge whose endpoint ids are `a` and `b`, in either direction. */
    method FindEdge(a: int, b: int) returns (r: Option<nat>)
      ensures r == FirstEdgeBetween(Snap(), a, b)
    {
      for i := 0 to |edgeList|
        invariant FirstEdgeBetween(Snap(), a, b) == FirstEdgeFrom(Snap(), a, b, i)
      {
        if LinksIds(Snap(), edgeList[i], a, b) {
          return Some(i);
        }
      }
      return None;
    }

    /** `find_node_in_radius`: the id of the first listed node whose circle holds the point, else -1. */
    method FindNodeInRadius(x: int, y: int) returns (r: int)
      ensures (exists i :: 0 <= i < |nodeList| && InRadius(Snap(), nodeList[i], x, y) && r == IdOf(Snap(), nodeList[i])
                 && forall k | 0 <= k < i :: !InRadius(Snap(), nodeList[k], x, y))
              || (r == -1 && forall i | 0 <= i < |nodeList| :: !InRadius(Snap(), nodeList[i], x, y))
    {
      for i := 0 to |nodeList|
        invariant forall k | 0 <= k < i :: !InRadius(Snap(), nodeList[k], x, y)
      {
        if InRadius(Snap(), nodeList[i], x, y) {
          return IdOf(Snap(), nodeList[i]);
        }
      }
      return -1;
    }

    /**
     * `add_node`: append one node with the given id and position, no colour,
     * no group, no neighbours, radius 20. No duplicate-id check is made; the
     * invariant survives when the id is not yet taken.
     */
    method AddNode(circleId: int, x: int, y: int)
      modifies this
      ensures store == old(store) + [Node(circleId, x, y, 20, -1, NoGroup, [])]
      ensures nodeList == old(nodeList) + [|old(store)|]
      ensures edgeList == old(edgeList)
      ensures old(Arena(Snap())) ==> Arena(Snap())
      ensures old(Valid()) && (forall h | h in old(nodeList) :: IdOf(old(Snap()), h) != circleId) ==> Valid()
    {
      var node := NewNode(x, y, circleId);
      store := store + [node];
      nodeList := nodeList + [|store| - 1];
      if old(Arena(Snap())) {
        AddNodeKeepsArena(old(Snap()), node);
      }
      if old(Valid()) && (forall h | h in old(nodeList) :: IdOf(old(Snap()), h) != circleId) {
        AddNodeKeepsWellFormed(old(Snap()), node);
      }
    }

    /**
     * `add_edge`: find the endpoints by id (the last listed node with each id;
     * a node with the source id is never taken as the destination), and when
     * both exist append one edge and register each endpoint in the other's
     * list. Equal ids therefore add nothing. The scan for an existing edge in
     * the source compares an endpoint node with a raw id, a test that never
     * holds, so it is left out and a second edge between the same pair is added.
     */
    method AddEdge(sourceId: int, destId: int, edgeId: int)
      requires Arena(Snap())
      modifies this
      ensures nodeList == old(nodeList)
      ensures var src := LastWithId(old(Snap()), sourceId, |old(nodeList)|);
              var dst := if sourceId == destId then None else LastWithId(old(Snap()), destId, |old(nodeList)|);
              if src.None? || dst.None? then
                store == old(store) && edgeList == old(edgeList)
              else
                && store == WithNeighbor(WithNeighbor(old(store), src.value, dst.value), dst.value, src.value)
                && edgeList == old(edgeList) + [Edge(src.value, dst.value, edgeId)]
      ensures Arena(Snap())
      ensures old(Valid()) ==> Valid()
    {
      var sourceNode, destNode := FindEndpoints(sourceId, destId);
      if sourceNode.None? || destNode.None? {
        return;
      }
      var src, dst := sourceNode.value, destNode.value;
      assert src in nodeList && dst in nodeList && src != dst;
      AddNeighbor(src, dst);
      AddNeighbor(dst, src);
      edgeList := edgeList + [Edge(src, dst, edgeId)];
      if old(Valid()) {
        AddEdgeKeepsWellFormed(old(Snap()), src, dst, edgeId);
      }
    }

    /**
     * The node scan of `add_edge`: the last listed node with the source id,
     * and the last listed node with the destination id among those that do
     * not carry the source id.
     */
    method FindEndpoints(sourceId: int, destId: int) returns (sourceNode: Option<Handle>, destNode: Option<Handle>)
      requires Arena(Snap())
      ensures sourceNode == LastWithId(Snap(), sourceId, |nodeList|)
      ensures destNode == if sourceId == destId then None else LastWithId(Snap(), destId, |nodeList|)
    {
      ghost var s := Snap();
      sourceNode, destNode := None, None;
      for i := 0 to |nodeList|
        invariant sourceNode == LastWithId(s, sourceId, i)
        invariant destNode == if sourceId == destId then None else LastWithId(s, destId, i)
      {
        var node := nodeList[i];
        if IdOf(Snap(), node) == sourceId {
          sourceNode := Some(node);
        } else if IdOf(Snap(), node) == destId {
          destNode := Some(node);
        }
      }
    }

    /** The edge scan of `delete_node`: the edges touching `id`, and the rest, each in list order. */
    method PartitionEdges(id: int) returns (touching: seq<Edge>, rest: seq<Edge>)
      ensures touching == Incident(Snap(), edgeList, id)
      ensures rest == Survivors(Snap(), edgeList, id)
    {
      touching, rest := [], [];
      for j := 0 to |edgeList|
        invariant touching == Incident(Snap(), edgeList[..j], id)
        invariant rest == Survivors(Snap(), edgeList[..j], id)
      {
        assert edgeList[..j + 1][..j] == edgeList[..j];
        if TouchesId(Snap(), edgeList[j], id) {
          touching := touching + [edgeList[j]];
        } else {
          rest := rest + [edgeList[j]];
        }
      }
      assert edgeList[..|edgeList|] == edgeList;
    }

    /**
     * `delete_node`: for the first listed node carrying `id`, every neighbour
     * drops it, every edge with an endpoint carrying `id` is removed, the node
     * leaves the node list, and the removed edges' ids are returned in list
     * order; `None` when no node carries `id`.
     */
    method DeleteNode(id: int) returns (r: Option<seq<int>>)
      requires Valid()
      modifies this
      ensures Valid()
      ensures r.None? <==> forall h | h in old(nodeList) :: IdOf(old(Snap()), h) != id
      ensures r.None? ==> store == old(store) && nodeList == old(nodeList) && edgeList == old(edgeList)
      ensures r.Some? ==> exists i :: FirstWithId(old(Snap()), id, i) && NodeRemoved(old(Snap()), Snap(), i)
      ensures r.Some? ==> edgeList == Survivors(old(Snap()), old(edgeList), id)
      ensures r.Some? ==> r.value == IdsOf(Incident(old(Snap()), old(edgeList), id))
    {
      for i := 0 to |nodeList|
        invariant store == old(store) && nodeList == old(nodeList) && edgeList == old(edgeList)
        invariant forall k | 0 <= k < i :: IdOf(Snap(), nodeList[k]) != id
      {
        var node := nodeList[i];
        if IdOf(Snap(), node) == id {
          ghost var before := Snap();
          assert FirstWithId(before, id, i);
          assert node in nodeList;
          ReadyToInform(before, i);
          InformNeighbors(node);

          FiltersReadIdsOnly(before, Snap(), edgeList, id);
          var edgesToRemove, kept := PartitionEdges(id);
          edgeList := kept;
          var edgeIds := IdsOf(edgesToRemove);
          nodeList := nodeList[..i] + nodeList[i + 1..];
          InformedIsRemoved(before, Snap(), i);
          DeleteKeepsWellFormed(before, Snap(), i, id);
          return Some(edgeIds);
        }
      }
      return None;
    }
  }

  /** Which edges touch `id` depends on the node ids alone. */
  lemma {:induction false} FiltersReadIdsOnly(s: Snapshot, t: Snapshot, es: seq<Edge>, id: int)
    requires forall k :: IdOf(s, k) == IdOf(t, k)
    ensures Incident(s, es, id) == Incident(t, es, id)
    ensures Survivors(s, es, id) == Survivors(t, es, id)
  {
    if es != [] {
      FiltersReadIdsOnly(s, t, es[..|es| - 1], id);
      assert TouchesId(s, es[|es| - 1], id) == TouchesId(t, es[|es| - 1], id);
    }
  }

  /** A listed node of a well-formed graph meets what `inform_neighbors` demands. */
  lemma ReadyToInform(s: Snapshot, i: nat)
    requires WellFormed(s) && i < |s.nodes|
    ensures s.nodes[i] < |s.store| && s.nodes[i] !in Nbrs(s, s.nodes[i])
    ensures forall k | k in Nbrs(s, s.nodes[i]) :: k < |s.store|
    ensures forall k | 0 <= k < |s.store| && k != s.nodes[i] ::
              multiset(Nbrs(s, s.nodes[i]))[k] <= multiset(Nbrs(s, k))[s.nodes[i]]
  {
    var h := s.nodes[i];
    assert h in s.nodes;
    assert forall k | k in Nbrs(s, h) :: k in s.nodes;
    forall k | 0 <= k < |s.store| && k != h
      ensures multiset(Nbrs(s, h))[k] <= multiset(Nbrs(s, k))[h]
    {
      if k in s.nodes {
        AdjacencyIsMutual(s, h, k);
      } else {
        assert k !in Nbrs(s, h);
      }
    }
  }

  /**
   * Partway through `inform_neighbors`: each other node `k` has dropped `h`
   * as many times as `done` holds `k`.
   */
  ghost predicate InformedUpTo(before: seq<Node>, cur: seq<Node>, h: Handle, done: multiset<Handle>)
  {
    && |cur| == |before| && h < |before| && cur[h] == before[h]
    && (forall k | 0 <= k < |before| && k != h :: done[k] <= multiset(before[k].neighbors)[h])
    && (forall k | 0 <= k < |before| && k != h && done[k] <= multiset(before[k].neighbors)[h] ::
          cur[k] == before[k].(neighbors := RemoveFirstN(before[k].neighbors, h, done[k])))
  }

  /** The prefix of length `i + 1` holds one more `own[i]` than the prefix of length `i`. */
  lemma PrefixCount(own: seq<Handle>, i: nat)
    requires i < |own|
    ensures multiset(own[..i + 1]) == multiset(own[..i]) + multiset{own[i]}
    ensures multiset(own[..i + 1]) <= multiset(own)
  {
    assert own[..i + 1] == own[..i] + [own[i]];
    assert own == own[..i + 1] + own[i + 1..];
  }

  /** One more `remove_neighbor(h)` on `k` keeps the bookkeeping, provided `k` still lists `h`. */
  lemma InformStep(before: seq<Node>, cur: seq<Node>, h: Handle, done: multiset<Handle>, k: Handle)
    requires InformedUpTo(before, cur, h, done)
    requires k < |before| && k != h && done[k] < multiset(before[k].neighbors)[h]
    ensures h in cur[k].neighbors
    ensures InformedUpTo(before, cur[k := cur[k].(neighbors := RemoveFirst(cur[k].neighbors, h))], h, done + multiset{k})
  {
    assert cur[k].neighbors == RemoveFirstN(before[k].neighbors, h, done[k]);
    assert multiset(cur[k].neighbors)[h] > 0;
    var next := cur[k := cur[k].(neighbors := RemoveFirst(cur[k].neighbors, h))];
    var done' := done + multiset{k};
    forall j | 0 <= j < |before| && j != h
      ensures done'[j] <= multiset(before[j].neighbors)[h]
      ensures next[j] == before[j].(neighbors := RemoveFirstN(before[j].neighbors, h, done'[j]))
    {
      if j == k {
        assert done'[j] == done[k] + 1;
        assert next[k].neighbors == RemoveFirstN(before[k].neighbors, h, done[k] + 1);
      } else {
        assert done'[j] == done[j] && next[j] == cur[j];
      }
    }
    assert InformedUpTo(before, next, h, done');
  }

  /** After `inform_neighbors` and the node-list removal, the state is the one `NodeRemoved` describes. */
  lemma InformedIsRemoved(s: Snapshot, t: Snapshot, i: nat)
    requires WellFormed(s) && i < |s.nodes| && s.nodes[i] < |s.store|
    requires t.nodes == s.nodes[..i] + s.nodes[i + 1..]
    requires |t.store| == |s.store| && t.store[s.nodes[i]] == s.store[s.nodes[i]]
    requires forall k | 0 <= k < |s.store| && k != s.nodes[i] ::
               && multiset(s.store[s.nodes[i]].neighbors)[k] <= multiset(s.store[k].neighbors)[s.nodes[i]]
               && t.store[k] == s.store[k].(neighbors := RemoveFirstN(s.store[k].neighbors, s.nodes[i], multiset(s.store[s.nodes[i]].neighbors)[k]))
    ensures NodeRemoved(s, t, i)
  {
    var h := s.nodes[i];
    assert h in s.nodes;
    assert s.nodes == s.nodes[..i] + [h] + s.nodes[i + 1..];
    forall k | 0 <= k < |s.store| && k in t.nodes
      ensures t.store[k] == s.store[k].(neighbors := Without(s.store[k].neighbors, h))
    {
      assert k in s.nodes && k != h;
      AdjacencyIsMutual(s, h, k);
      RemoveEveryOccurrence(s.store[k].neighbors, h);
    }
    forall k | 0 <= k < |s.store| && k !in s.nodes
      ensures t.store[k] == s.store[k]
    {
      assert k !in Nbrs(s, h);
      assert multiset(s.store[h].neighbors)[k] == 0;
    }
  }
}

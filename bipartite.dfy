/**
 * The bipartite check of GraphAlgorithms.py: `is_bipartite`, its BFS
 * 2-colouring `_bfs_coloring` and the tagging `_tag`. The colour dictionary
 * is a map from live handles to 0 (uncoloured), 1 (red) or 2 (blue).
 */
module Bipartite {

  import opened GraphNode
  import opened GraphStore
  import Traversal

  const Blank: int := 0
  const Red: int := 1
  const Blue: int := 2

  /** A 2-colouring of the live nodes under which no two neighbours agree. */
  ghost predicate ProperTwoColouring(s: Snapshot, f: map<Handle, bool>)
  {
    && (forall h | h in s.nodes :: h in f)
    && (forall u, v | u in s.nodes && v in Nbrs(s, u) && u in f && v in f :: f[u] != f[v])
  }

  /** The colour dictionary covers exactly the live nodes, with values 0, 1 or 2. */
  ghost predicate Palette(s: Snapshot, colors: map<Handle, int>)
  {
    && (forall h :: h in colors <==> h in s.nodes)
    && (forall h | h in colors :: Blank <= colors[h] <= Blue)
  }

  /** Every neighbour of `u` is coloured, differently from `u`. */
  ghost predicate Done(s: Snapshot, colors: map<Handle, int>, u: Handle)
    requires u in colors
  {
    forall v | v in Nbrs(s, u) :: v in colors && colors[v] != Blank && colors[v] != colors[u]
  }

  /** Every coloured node has all its neighbours coloured, differently from itself. */
  ghost predicate Closed(s: Snapshot, colors: map<Handle, int>)
  {
    forall u | u in colors && colors[u] != Blank :: Done(s, colors, u)
  }

  /** Colours the BFS reaches from `start` without having coloured them before. */
  ghost predicate Fresh(before: map<Handle, int>, colors: map<Handle, int>, h: Handle)
  {
    h in before && h in colors && before[h] == Blank && colors[h] != Blank
  }

  /** The nodes still uncoloured: the BFS only ever shrinks this set. */
  ghost function BlankOf(colors: map<Handle, int>): set<Handle>
  {
    set h | h in colors && colors[h] == Blank
  }

  /**
   * What the search keeps of the dictionary it was given: the same keys, the
   * earlier colours, and `start` newly coloured red.
   */
  ghost predicate Spread(colors: map<Handle, int>, result: map<Handle, int>, start: Handle)
  {
    && result.Keys == colors.Keys
    && (forall h | h in result :: Blank <= result[h] <= Blue)
    && (forall h | h in colors && colors[h] != Blank :: result[h] == colors[h])
    && Fresh(colors, result, start) && result[start] == Red
  }

  /**
   * In any proper 2-colouring, a node this search coloured sides with
   * `start` exactly when the search made it red.
   */
  ghost predicate Parity(s: Snapshot, colors: map<Handle, int>, result: map<Handle, int>, start: Handle)
  {
    forall f, h | ProperTwoColouring(s, f) && Fresh(colors, result, h) ::
      h in f && start in f && (f[h] == f[start]) == (result[h] == Red)
  }

  /** Every node this search coloured can be reached from `start`. */
  ghost predicate Within(s: Snapshot, colors: map<Handle, int>, result: map<Handle, int>, start: Handle)
  {
    forall h | Fresh(colors, result, h) :: Traversal.Reaches(s, LiveSet(s), start, h)
  }

  /** A search that keeps `Within` changes only colours of nodes reachable from `start`. */
  lemma WithinChanged(s: Snapshot, colors: map<Handle, int>, result: map<Handle, int>, start: Handle)
    requires Spread(colors, result, start) && Within(s, colors, result, start)
    ensures forall h | h in colors && result[h] != colors[h] :: Traversal.Reaches(s, LiveSet(s), start, h)
  {
    forall h | h in colors && result[h] != colors[h]
      ensures Traversal.Reaches(s, LiveSet(s), start, h)
    {
      assert Fresh(colors, result, h);
    }
  }

  /** Colouring a neighbour of a node this search coloured keeps `Within`. */
  lemma WithinStep(s: Snapshot, colors: map<Handle, int>, result: map<Handle, int>, start: Handle,
                   current: Handle, n: Handle, c: int)
    requires Within(s, colors, result, start) && Fresh(colors, result, current)
    requires n in Nbrs(s, current) && n in s.nodes
    ensures Within(s, colors, result[n := c], start)
  {
    Traversal.ReachStep(s, LiveSet(s), start, current, n);
    forall h | Fresh(colors, result[n := c], h)
      ensures Traversal.Reaches(s, LiveSet(s), start, h)
    {
      if h != n {
        assert Fresh(colors, result, h);
      }
    }
  }

  /** Every node waiting in the queue was coloured by this search. */
  ghost predicate Queued(colors: map<Handle, int>, result: map<Handle, int>, queue: seq<Handle>)
  {
    forall h | h in queue :: Fresh(colors, result, h)
  }

  /** Every coloured node outside `pending` has all its neighbours properly coloured. */
  ghost predicate DoneOutside(s: Snapshot, result: map<Handle, int>, pending: seq<Handle>)
  {
    forall h | h in result && result[h] != Blank && h !in pending :: Done(s, result, h)
  }

  /** The first `j` neighbours in `nbrs` are coloured, differently from `c`. */
  ghost predicate Prefix(result: map<Handle, int>, nbrs: seq<Handle>, j: nat, c: Handle)
    requires j <= |nbrs| && c in result
  {
    forall k | 0 <= k < j :: nbrs[k] in result && result[nbrs[k]] != Blank && result[nbrs[k]] != result[c]
  }

  /** A neighbour already coloured differently from `c` extends the prefix. */
  lemma PrefixExtend(result: map<Handle, int>, nbrs: seq<Handle>, j: nat, c: Handle)
    requires j < |nbrs| && c in result && Prefix(result, nbrs, j, c)
    requires nbrs[j] in result && result[nbrs[j]] != Blank && result[nbrs[j]] != result[c]
    ensures Prefix(result, nbrs, j + 1, c)
  {
  }

  /** Colouring the blank `nbrs[j]` opposite to `c` extends the prefix. */
  lemma PrefixColour(result: map<Handle, int>, nbrs: seq<Handle>, j: nat, c: Handle)
    requires j < |nbrs| && c in result && Prefix(result, nbrs, j, c)
    requires nbrs[j] in result && result[nbrs[j]] == Blank && Red <= result[c] <= Blue
    ensures Prefix(result[nbrs[j] := 3 - result[c]], nbrs, j + 1, c)
  {
    var r := result[nbrs[j] := 3 - result[c]];
    forall k | 0 <= k < j + 1
      ensures nbrs[k] in r && r[nbrs[k]] != Blank && r[nbrs[k]] != r[c]
    {
      if k < j {
        assert result[nbrs[k]] != Blank && nbrs[k] != nbrs[j];
      }
    }
  }

  /** The state right after `start` is coloured red and queued. */
  lemma BfsInit(s: Snapshot, colors: map<Handle, int>, start: Handle)
    requires start in s.nodes && Palette(s, colors) && colors[start] == Blank && Closed(s, colors)
    ensures Spread(colors, colors[start := Red], start)
    ensures Parity(s, colors, colors[start := Red], start)
    ensures Queued(colors, colors[start := Red], [start])
    ensures DoneOutside(s, colors[start := Red], [start])
    ensures Within(s, colors, colors[start := Red], start)
  {
    var r := colors[start := Red];
    Traversal.ReachSelf(s, LiveSet(s), start);
    forall h | h in r && r[h] != Blank && h !in [start]
      ensures Done(s, r, h)
    {
      assert colors[h] != Blank && Done(s, colors, h);
    }
  }

  /** Colouring the blank neighbour `nbrs[j]` of `current` opposite to `current` and queueing it. */
  lemma BfsColourStep(s: Snapshot, colors: map<Handle, int>, result: map<Handle, int>, start: Handle,
                      queue: seq<Handle>, current: Handle, nbrs: seq<Handle>, j: nat)
    requires Palette(s, colors) && current in s.nodes && nbrs == Nbrs(s, current) && j < |nbrs|
    requires Spread(colors, result, start) && Parity(s, colors, result, start)
    requires Fresh(colors, result, current) && Queued(colors, result, queue)
    requires DoneOutside(s, result, [current] + queue) && Prefix(result, nbrs, j, current)
    requires nbrs[j] in result && result[nbrs[j]] == Blank
    ensures var r := result[nbrs[j] := 3 - result[current]];
      && Spread(colors, r, start) && Parity(s, colors, r, start)
      && Fresh(colors, r, current) && Queued(colors, r, queue + [nbrs[j]])
      && DoneOutside(s, r, [current] + (queue + [nbrs[j]])) && Prefix(r, nbrs, j + 1, current)
      && BlankOf(r) == BlankOf(result) - {nbrs[j]} && nbrs[j] in BlankOf(result)
  {
    var n := nbrs[j];
    var r := result[n := 3 - result[current]];
    assert n != current;
    assert colors[n] == Blank;
    assert Spread(colors, r, start);
    forall h | h in queue + [n]
      ensures Fresh(colors, r, h)
    {
      if h != n {
        assert h in queue && Fresh(colors, result, h);
      }
    }
    forall h | h in r && r[h] != Blank && h !in [current] + (queue + [n])
      ensures Done(s, r, h)
    {
      assert h != n && h !in [current] + queue && result[h] != Blank;
      assert Done(s, result, h);
      forall v | v in Nbrs(s, h)
        ensures v in r && r[v] != Blank && r[v] != r[h]
      {
        assert result[v] != Blank;
      }
    }
    PrefixColour(result, nbrs, j, current);
    forall f, h | ProperTwoColouring(s, f) && Fresh(colors, r, h)
      ensures h in f && start in f && (f[h] == f[start]) == (r[h] == Red)
    {
      if h == n {
        assert n in s.nodes;
        assert Fresh(colors, result, current);
        assert f[n] != f[current];
      } else {
        assert Fresh(colors, result, h);
      }
    }
    assert BlankOf(r) == BlankOf(result) - {n};
  }

  /** `a` and `b` sit on different sides of the 2-colouring `f`. */
  ghost predicate Apart(f: map<Handle, bool>, a: Handle, b: Handle)
  {
    a in f && b in f && f[a] != f[b]
  }

  /** A proper 2-colouring puts any two neighbours apart. */
  lemma NeighboursApart(s: Snapshot, u: Handle, v: Handle)
    requires u in s.nodes && v in s.nodes && v in Nbrs(s, u)
    ensures forall f | ProperTwoColouring(s, f) :: Apart(f, u, v)
  {
    forall f | ProperTwoColouring(s, f)
      ensures Apart(f, u, v)
    {
      assert u in f && v in f;
    }
  }

  /** Two nodes this search gave the same colour sit on the same side of any proper 2-colouring. */
  lemma SameColourTogether(s: Snapshot, colors: map<Handle, int>, result: map<Handle, int>, start: Handle,
                           u: Handle, v: Handle)
    requires Parity(s, colors, result, start)
    requires Fresh(colors, result, u) && Fresh(colors, result, v) && result[u] == result[v]
    ensures forall f | ProperTwoColouring(s, f) :: !Apart(f, u, v)
  {
  }

  /**
   * A neighbour with the colour of `current` rules out every proper
   * 2-colouring: both were coloured by this search, so the parity they
   * share with `start` forces them onto the same side.
   */
  lemma BfsConflict(s: Snapshot, colors: map<Handle, int>, result: map<Handle, int>, start: Handle,
                    current: Handle, n: Handle)
    requires Symmetric(s) && Palette(s, colors) && Closed(s, colors)
    requires current in s.nodes && n in Nbrs(s, current)
    requires Spread(colors, result, start) && Parity(s, colors, result, start)
    requires Fresh(colors, result, current) && n in result && result[n] == result[current]
    ensures forall f :: !ProperTwoColouring(s, f)
  {
    assert n in s.nodes && current in Nbrs(s, n);
    if colors[n] != Blank {
      assert false;
    }
    NeighboursApart(s, current, n);
    SameColourTogether(s, colors, result, start, current, n);
  }

  /** `current` is done, so it leaves the set of nodes still pending. */
  lemma Absorb(s: Snapshot, result: map<Handle, int>, current: Handle, queue: seq<Handle>)
    requires current in result && DoneOutside(s, result, [current] + queue)
    requires Done(s, result, current)
    ensures DoneOutside(s, result, queue)
  {
    assert forall h | h !in queue && h != current :: h !in [current] + queue;
  }

  /** With the queue empty every coloured node is done, and the keys are the live nodes. */
  lemma BfsFinish(s: Snapshot, colors: map<Handle, int>, result: map<Handle, int>, start: Handle)
    requires Palette(s, colors) && Spread(colors, result, start) && DoneOutside(s, result, [])
    ensures Palette(s, result) && Closed(s, result) && result[start] != Blank
  {
  }

  /** The dictionary keeps the live nodes as keys. */
  lemma BfsFinishPalette(s: Snapshot, colors: map<Handle, int>, result: map<Handle, int>, start: Handle)
    requires Palette(s, colors) && Spread(colors, result, start)
    ensures Palette(s, result)
  {
  }

  /**
   * One pass of the `for neighbor in current.neighbors` loop of
   * `_bfs_coloring`: a blank neighbour gets the other colour and joins the
   * queue, a neighbour with the colour of `current` ends the search with
   * False, any other is skipped. On success `current` is done and the blank
   * nodes did not grow (and when they did not shrink, the queue is as it was).
   */
  method ScanNeighbours(g: Graph, start: Handle, colors: map<Handle, int>, current: Handle,
                        result0: map<Handle, int>, queue0: seq<Handle>)
    returns (ok: bool, result: map<Handle, int>, queue: seq<Handle>)
    requires Symmetric(g.Snap()) && Palette(g.Snap(), colors) && Closed(g.Snap(), colors)
    requires current in g.nodeList
    requires Spread(colors, result0, start) && Parity(g.Snap(), colors, result0, start)
    requires Fresh(colors, result0, current) && Queued(colors, result0, queue0)
    requires DoneOutside(g.Snap(), result0, [current] + queue0) && Within(g.Snap(), colors, result0, start)
    ensures Spread(colors, result, start) && Parity(g.Snap(), colors, result, start)
    ensures Within(g.Snap(), colors, result, start)
    ensures ok ==> Queued(colors, result, queue) && DoneOutside(g.Snap(), result, queue)
    ensures ok ==> BlankOf(result) <= BlankOf(result0) && (BlankOf(result) == BlankOf(result0) ==> queue == queue0)
    ensures !ok ==> forall f :: !ProperTwoColouring(g.Snap(), f)
  {
    ghost var s := g.Snap();
    result, queue := result0, queue0;
    var nbrs := g.store[current].neighbors;
    assert current in s.nodes && nbrs == Nbrs(s, current);
    for j := 0 to |nbrs|
      invariant Spread(colors, result, start) && Parity(s, colors, result, start)
      invariant Fresh(colors, result, current) && Queued(colors, result, queue)
      invariant DoneOutside(s, result, [current] + queue) && Prefix(result, nbrs, j, current)
      invariant BlankOf(result) <= BlankOf(result0) && (BlankOf(result) == BlankOf(result0) ==> queue == queue0)
      invariant Within(s, colors, result, start)
    {
      var neighbor: Handle := nbrs[j];
      assert neighbor in s.nodes && neighbor in result;
      if result[neighbor] == Blank {
        BfsColourStep(s, colors, result, start, queue, current, nbrs, j);
        WithinStep(s, colors, result, start, current, neighbor, 3 - result[current]);
        result := result[neighbor := 3 - result[current]];
        queue := queue + [neighbor];
      } else if result[neighbor] == result[current] {
        BfsConflict(s, colors, result, start, current, neighbor);
        return false, result, queue;
      } else {
        PrefixExtend(result, nbrs, j, current);
      }
    }
    Absorb(s, result, current, queue);
    return true, result, queue;
  }

  /**
   * `_bfs_coloring(start, node_colors)`: colour `start` red and spread
   * alternating colours in BFS order; stop with False at the first neighbour
   * found with the current node's colour. The dictionary, updated in place in
   * the source, is passed in and returned.
   */
  method BfsColoring(g: Graph, start: Handle, colors: map<Handle, int>) returns (ok: bool, result: map<Handle, int>)
    requires Symmetric(g.Snap()) && start in g.nodeList
    requires Palette(g.Snap(), colors) && colors[start] == Blank && Closed(g.Snap(), colors)
    ensures Palette(g.Snap(), result) && result[start] == Red
    ensures forall h | h in colors && colors[h] != Blank :: result[h] == colors[h]
    ensures forall h | h in colors && result[h] != colors[h] :: Traversal.Reaches(g.Snap(), LiveSet(g.Snap()), start, h)
    ensures ok ==> Closed(g.Snap(), result)
    ensures !ok ==> forall f :: !ProperTwoColouring(g.Snap(), f)
  {
    ghost var s := g.Snap();
    BfsInit(s, colors, start);
    result := colors[start := Red];
    var queue: seq<Handle> := [start];
    while queue != []
      invariant Spread(colors, result, start) && Parity(s, colors, result, start)
      invariant Queued(colors, result, queue) && DoneOutside(s, result, queue)
      invariant Within(s, colors, result, start)
      decreases BlankOf(result), |queue|
    {
      var current: Handle := queue[0];
      assert current in queue && queue == [current] + queue[1..];
      assert Fresh(colors, result, current) && current in s.nodes;
      var fine;
      fine, result, queue := ScanNeighbours(g, start, colors, current, result, queue[1..]);
      if !fine {
        BfsFinishPalette(s, colors, result, start);
        WithinChanged(s, colors, result, start);
        return false, result;
      }
    }
    BfsFinish(s, colors, result, start);
    WithinChanged(s, colors, result, start);
    return true, result;
  }

  /**
   * A closed colouring with no node left blank splits every edge: of two
   * neighbours exactly one is red.
   */
  lemma ClosedSeparates(s: Snapshot, colors: map<Handle, int>)
    requires Palette(s, colors) && Closed(s, colors)
    requires forall h | h in colors :: colors[h] != Blank
    ensures forall u, v | u in s.nodes && v in Nbrs(s, u) :: u in colors && v in colors && (colors[u] == Red) != (colors[v] == Red)
  {
    forall u, v | u in s.nodes && v in Nbrs(s, u)
      ensures u in colors && v in colors && (colors[u] == Red) != (colors[v] == Red)
    {
      assert Done(s, colors, u);
    }
  }

  /**
   * `_tag`: every live node is put in group A when red and in group B
   * otherwise; nothing else changes. The dictionary's iteration order is the
   * node-list order in which it was built.
   */
  method Tag(g: Graph, colors: map<Handle, int>)
    requires g.Valid() && Palette(g.Snap(), colors)
    modifies g
    ensures g.nodeList == old(g.nodeList) && g.edgeList == old(g.edgeList) && |g.store| == |old(g.store)|
    ensures forall h | 0 <= h < |g.store| && h in g.nodeList ::
              g.store[h] == old(g.store)[h].(group := if colors[h] == Red then A else B)
    ensures forall h | 0 <= h < |g.store| && h !in g.nodeList :: g.store[h] == old(g.store)[h]
    ensures g.Valid()
  {
    ghost var s := g.Snap();
    for i := 0 to |g.nodeList|
      invariant g.nodeList == old(g.nodeList) && g.edgeList == old(g.edgeList) && |g.store| == |old(g.store)|
      invariant g.Valid()
      invariant forall h | 0 <= h < |g.store| && h in g.nodeList[..i] ::
                  g.store[h] == old(g.store)[h].(group := if colors[h] == Red then A else B)
      invariant forall h | 0 <= h < |g.store| && h !in g.nodeList[..i] :: g.store[h] == old(g.store)[h]
    {
      var node := g.nodeList[i];
      assert node in s.nodes && node in colors;
      assert g.nodeList[..i + 1] == g.nodeList[..i] + [node];
      g.SetGroup(node, if colors[node] == Red then A else B);
    }
    assert g.nodeList[..|g.nodeList|] == g.nodeList;
  }

  /** The nodes that carry a colour. */
  ghost function Painted(colors: map<Handle, int>): (p: set<Handle>)
    ensures forall h :: h in p <==> h in colors && colors[h] != Blank
  {
    set h | h in colors && colors[h] != Blank
  }

  /**
   * Before the turn of the `i`-th listed node in `is_bipartite`: coloured
   * nodes are reached from the first `i` listed nodes, and each of those
   * that no earlier listed node reaches is red.
   */
  ghost predicate Leaders(s: Snapshot, colors: map<Handle, int>, i: int)
    requires Palette(s, colors)
  {
    && (forall h | h in Painted(colors) :: Traversal.ReachedFrom(s, i, h))
    && (forall k {:trigger Traversal.ReachedFrom(s, k, s.nodes[k])}
          | 0 <= k < i && k < |s.nodes| && !Traversal.ReachedFrom(s, k, s.nodes[k]) :: colors[s.nodes[k]] == Red)
  }

  /** A search from the blank `i`-th listed node keeps `Leaders` for one more node. */
  lemma LeadersAfterSearch(s: Snapshot, colors: map<Handle, int>, result: map<Handle, int>, i: int)
    requires 0 <= i < |s.nodes| && Palette(s, colors) && Palette(s, result) && colors[s.nodes[i]] == Blank
    requires Leaders(s, colors, i) && result[s.nodes[i]] == Red
    requires forall h | h in colors && colors[h] != Blank :: result[h] == colors[h]
    requires forall h | h in colors && result[h] != colors[h] :: Traversal.Reaches(s, LiveSet(s), s.nodes[i], h)
    ensures Leaders(s, result, i + 1)
  {
    forall h | h in Painted(result)
      ensures Traversal.ReachedFrom(s, i + 1, h)
    {
      if colors[h] != Blank {
        Traversal.ReachedFromMore(s, i, h);
      } else {
        assert Traversal.Reaches(s, LiveSet(s), s.nodes[i], h);
      }
    }
  }

  /** Past a listed node already coloured, which an earlier one reaches, `Leaders` holds for one more node. */
  lemma LeadersSkip(s: Snapshot, colors: map<Handle, int>, i: int)
    requires 0 <= i < |s.nodes| && Palette(s, colors) && colors[s.nodes[i]] != Blank && Leaders(s, colors, i)
    ensures Leaders(s, colors, i + 1)
  {
    forall h | h in Painted(colors)
      ensures Traversal.ReachedFrom(s, i + 1, h)
    {
      Traversal.ReachedFromMore(s, i, h);
    }
    assert s.nodes[i] in Painted(colors);
  }

  /**
   * The turn of the `i`-th listed node in the colouring loop of
   * `is_bipartite`: a BFS from it when it is still blank. On success the
   * loop state holds for one more node; a conflict rules out any proper
   * 2-colouring.
   */
  method ColourTurn(g: Graph, i: int, colors: map<Handle, int>) returns (ok: bool, result: map<Handle, int>)
    requires Symmetric(g.Snap()) && 0 <= i < |g.nodeList|
    requires Palette(g.Snap(), colors) && Closed(g.Snap(), colors)
    requires forall k | 0 <= k < i :: colors[g.nodeList[k]] != Blank
    requires Leaders(g.Snap(), colors, i)
    ensures ok ==> Palette(g.Snap(), result) && Closed(g.Snap(), result)
    ensures ok ==> forall k | 0 <= k < i + 1 :: result[g.nodeList[k]] != Blank
    ensures ok ==> Leaders(g.Snap(), result, i + 1)
    ensures !ok ==> forall f :: !ProperTwoColouring(g.Snap(), f)
  {
    ghost var s := g.Snap();
    var node := g.nodeList[i];
    if colors[node] == Blank {
      ok, result := BfsColoring(g, node, colors);
      if ok {
        LeadersAfterSearch(s, colors, result, i);
      }
    } else {
      ok, result := true, colors;
      LeadersSkip(s, colors, i);
    }
  }

  /**
   * The colouring loop of `is_bipartite`: every live node starts blank and
   * each one still blank when its turn in the node list comes starts a BFS.
   * Success leaves every live node red or blue with every edge split; the
   * first conflict rules out any proper 2-colouring.
   */
  method ColourComponents(g: Graph) returns (ok: bool, colors: map<Handle, int>)
    requires Symmetric(g.Snap())
    ensures ok ==> Palette(g.Snap(), colors) && Closed(g.Snap(), colors)
    ensures ok ==> forall h | h in colors :: colors[h] != Blank
    ensures ok ==> forall i | 0 <= i < |g.nodeList| && !Traversal.ReachedFrom(g.Snap(), i, g.nodeList[i]) ::
                     colors[g.nodeList[i]] == Red
    ensures !ok ==> forall f :: !ProperTwoColouring(g.Snap(), f)
  {
    colors := map h | h in g.nodeList :: Blank;
    assert Leaders(g.Snap(), colors, 0);
    for i := 0 to |g.nodeList|
      invariant Palette(g.Snap(), colors) && Closed(g.Snap(), colors)
      invariant forall k | 0 <= k < i :: colors[g.nodeList[k]] != Blank
      invariant Leaders(g.Snap(), colors, i)
    {
      var fine;
      fine, colors := ColourTurn(g, i, colors);
      if !fine {
        return false, colors;
      }
    }
    forall h | h in colors
      ensures colors[h] != Blank
    {
      var k :| 0 <= k < |g.nodeList| && g.nodeList[k] == h;
    }
    return true, colors;
  }

  /**
   * `is_bipartite`: BFS-colour every still uncoloured node in list order;
   * on the first conflict answer False without writing any group, otherwise
   * tag the two colour classes A and B and answer True. True comes with a
   * tagging in which neighbours always differ; False means no proper
   * 2-colouring of the graph exists.
   */
  method IsBipartite(g: Graph) returns (ok: bool)
    requires g.Valid()
    modifies g
    ensures g.Valid()
    ensures g.nodeList == old(g.nodeList) && g.edgeList == old(g.edgeList) && |g.store| == |old(g.store)|
    ensures !ok ==> g.store == old(g.store) && forall f :: !ProperTwoColouring(g.Snap(), f)
    ensures ok ==> forall h | h in g.nodeList :: GroupOf(g.Snap(), h) == A || GroupOf(g.Snap(), h) == B
    ensures ok ==> forall u, v | u in g.nodeList && v in Nbrs(g.Snap(), u) :: GroupOf(g.Snap(), u) != GroupOf(g.Snap(), v)
    ensures ok ==> forall h | 0 <= h < |g.store| :: g.store[h] == old(g.store)[h].(group := g.store[h].group)
    ensures ok ==> forall i | 0 <= i < |g.nodeList| && !Traversal.ReachedFrom(old(g.Snap()), i, g.nodeList[i]) ::
                     GroupOf(g.Snap(), g.nodeList[i]) == A
  {
    ghost var s := g.Snap();
    WellFormedIsSymmetric(s);
    var colors;
    ok, colors := ColourComponents(g);
    if !ok {
      return;
    }
    ClosedSeparates(s, colors);
    Tag(g, colors);
    assert forall h | 0 <= h < |g.store| :: g.store[h].neighbors == s.store[h].neighbors;
    assert forall h :: Nbrs(g.Snap(), h) == Nbrs(s, h);
  }
}

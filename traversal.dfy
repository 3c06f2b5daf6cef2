/**
 * The traversals of the colouring half of GraphAlgorithms.py: the BFS orders
 * of `bfs_spanning_tree`, `component_spanning_tree` and `triad_bfs`, and the
 * stack search of `connected_components`. Every one of them marks a node
 * visited when it leaves the queue (or stack), so a node may wait there more
 * than once; each queues the neighbours that pass its own filter.
 */
module Traversal {

  import opened GraphNode
  import opened GraphStore

  // ---------------------------------------------------------------------
  // Reachability

  /** A walk along neighbour lists whose nodes after the first all lie in `keep`. */
  ghost predicate Chain(s: Snapshot, keep: set<Handle>, p: seq<Handle>)
  {
    |p| > 0 && forall i, j | 0 <= i && j == i + 1 && j < |p| :: p[j] in Nbrs(s, p[i]) && p[j] in keep
  }

  /** `b` can be reached from `a` by a walk through nodes of `keep`. */
  ghost predicate Reaches(s: Snapshot, keep: set<Handle>, a: Handle, b: Handle)
  {
    exists p :: Chain(s, keep, p) && p[0] == a && p[|p| - 1] == b
  }

  /** `h` can be reached from one of the first `i` listed nodes. */
  ghost predicate ReachedFrom(s: Snapshot, i: int, h: Handle)
  {
    exists j | 0 <= j < i && j < |s.nodes| :: Reaches(s, LiveSet(s), s.nodes[j], h)
  }

  /** What the first `i` listed nodes reach, the first `i + 1` reach too. */
  lemma ReachedFromMore(s: Snapshot, i: int, h: Handle)
    requires ReachedFrom(s, i, h)
    ensures ReachedFrom(s, i + 1, h)
  {
    var j :| 0 <= j < i && j < |s.nodes| && Reaches(s, LiveSet(s), s.nodes[j], h);
    assert 0 <= j < i + 1;
  }

  /** A node set that holds every `keep`-neighbour of its members. */
  ghost predicate Closed(s: Snapshot, keep: set<Handle>, r: set<Handle>)
  {
    forall v, w | v in r && w in Nbrs(s, v) && w in keep :: w in r
  }

  lemma ReachSelf(s: Snapshot, keep: set<Handle>, a: Handle)
    ensures Reaches(s, keep, a, a)
  {
    assert Chain(s, keep, [a]);
  }

  /** A walk to `v` goes on to any neighbour of `v` in `keep`. */
  lemma ReachStep(s: Snapshot, keep: set<Handle>, a: Handle, v: Handle, w: Handle)
    requires Reaches(s, keep, a, v) && w in Nbrs(s, v) && w in keep
    ensures Reaches(s, keep, a, w)
  {
    var p :| Chain(s, keep, p) && p[0] == a && p[|p| - 1] == v;
    var q := p + [w];
    forall i, j | 0 <= i && j == i + 1 && j < |q|
      ensures q[j] in Nbrs(s, q[i]) && q[j] in keep
    {
      if j < |p| {
        assert q[i] == p[i] && q[j] == p[j];
      }
    }
    assert Chain(s, keep, q);
  }

  /** A walk through `keep'` is a walk through any `keep` that contains it. */
  lemma ReachWider(s: Snapshot, keep': set<Handle>, keep: set<Handle>, a: Handle, b: Handle)
    requires keep' <= keep && Reaches(s, keep', a, b)
    ensures Reaches(s, keep, a, b)
  {
    var p :| Chain(s, keep', p) && p[0] == a && p[|p| - 1] == b;
    forall i, j | 0 <= i && j == i + 1 && j < |p|
      ensures p[j] in Nbrs(s, p[i]) && p[j] in keep
    {
      assert p[j] in Nbrs(s, p[i]) && p[j] in keep';
    }
    assert Chain(s, keep, p);
  }

  /** A walk from `b` through `keep` extends back to a neighbour `a` of `b`, with `b` in `keep`. */
  lemma ReachPrepend(s: Snapshot, keep: set<Handle>, a: Handle, b: Handle, c: Handle)
    requires b in Nbrs(s, a) && b in keep && Reaches(s, keep, b, c)
    ensures Reaches(s, keep, a, c)
  {
    var p :| Chain(s, keep, p) && p[0] == b && p[|p| - 1] == c;
    var q := [a] + p;
    forall i, j | 0 <= i && j == i + 1 && j < |q|
      ensures q[j] in Nbrs(s, q[i]) && q[j] in keep
    {
      if i > 0 {
        assert q[i] == p[i - 1] && q[j] == p[j - 1];
      }
    }
    assert Chain(s, keep, q);
  }

  /** Whatever is reached from somewhere other than the start itself lies in `keep`. */
  lemma ReachKeep(s: Snapshot, keep: set<Handle>, a: Handle, b: Handle)
    requires Reaches(s, keep, a, b) && b != a
    ensures b in keep
  {
    var p :| Chain(s, keep, p) && p[0] == a && p[|p| - 1] == b;
    assert |p| > 1;
    var i, j := |p| - 2, |p| - 1;
    assert p[j] in Nbrs(s, p[i]) && p[j] in keep;
  }

  /** A walk that starts inside a closed set stays inside it. */
  lemma {:induction false} ChainEndsInside(s: Snapshot, keep: set<Handle>, r: set<Handle>, p: seq<Handle>)
    requires Chain(s, keep, p) && p[0] in r && Closed(s, keep, r)
    ensures p[|p| - 1] in r
  {
    if |p| > 1 {
      var q := p[..|p| - 1];
      assert Chain(s, keep, q) by {
        forall i, j | 0 <= i && j == i + 1 && j < |q|
          ensures q[j] in Nbrs(s, q[i]) && q[j] in keep
        {
          assert q[i] == p[i] && q[j] == p[j];
        }
      }
      ChainEndsInside(s, keep, r, q);
      var i, j := |p| - 2, |p| - 1;
      assert p[j] in Nbrs(s, p[i]) && p[j] in keep;
    }
  }

  /** A closed set holding `a` holds everything reachable from `a`. */
  lemma ClosedHoldsReachable(s: Snapshot, keep: set<Handle>, r: set<Handle>, a: Handle)
    requires a in r && Closed(s, keep, r)
    ensures forall b | Reaches(s, keep, a, b) :: b in r
  {
    forall b | Reaches(s, keep, a, b)
      ensures b in r
    {
      var p :| Chain(s, keep, p) && p[0] == a && p[|p| - 1] == b;
      ChainEndsInside(s, keep, r, p);
    }
  }

  /** In a graph with mutual adjacency the live nodes form a closed set. */
  lemma LiveIsClosed(s: Snapshot, keep: set<Handle>)
    requires Symmetric(s)
    ensures Closed(s, keep, LiveSet(s))
  {
  }

  /**
   * With mutual adjacency a walk can be retraced: from a live start inside
   * `keep`, whatever is reachable reaches the start back.
   */
  lemma ReachBack(s: Snapshot, keep: set<Handle>, a: Handle, b: Handle)
    requires Symmetric(s) && a in s.nodes && a in keep && Reaches(s, keep, a, b)
    ensures Reaches(s, keep, b, a)
  {
    var p :| Chain(s, keep, p) && p[0] == a && p[|p| - 1] == b;
    LiveIsClosed(s, keep);
    forall i | 0 <= i < |p|
      ensures p[i] in s.nodes
    {
      var q := p[..i + 1];
      assert Chain(s, keep, q) by {
        forall k, l | 0 <= k && l == k + 1 && l < |q|
          ensures q[l] in Nbrs(s, q[k]) && q[l] in keep
        {
          assert q[k] == p[k] && q[l] == p[l];
        }
      }
      ChainEndsInside(s, keep, LiveSet(s), q);
    }
    var r := Reversed(p);
    forall i, j | 0 <= i && j == i + 1 && j < |r|
      ensures r[j] in Nbrs(s, r[i]) && r[j] in keep
    {
      var k, l := |p| - 1 - j, |p| - 1 - i;
      assert r[i] == p[l] && r[j] == p[k];
      assert p[l] in Nbrs(s, p[k]);
      if k > 0 {
        var k' := k - 1;
        assert p[k] in Nbrs(s, p[k']) && p[k] in keep;
      }
    }
    assert Chain(s, keep, r);
  }

  // ---------------------------------------------------------------------
  // Lists of nodes

  /** No node occurs twice. */
  predicate Distinct(p: seq<Handle>)
  {
    forall i, j | 0 <= i < j < |p| :: p[i] != p[j]
  }

  /** `list[::-1]`. */
  function Reversed(p: seq<Handle>): (r: seq<Handle>)
    ensures |r| == |p| && forall i | 0 <= i < |p| :: r[i] == p[|p| - 1 - i]
  {
    if p == [] then [] else Reversed(p[1..]) + [p[0]]
  }

  /** Reversing keeps the members and keeps them distinct. */
  lemma ReversedMembers(p: seq<Handle>)
    ensures forall h :: h in Reversed(p) <==> h in p
    ensures Distinct(p) ==> Distinct(Reversed(p))
  {
    var r := Reversed(p);
    forall h | h in p
      ensures h in r
    {
      var i :| 0 <= i < |p| && p[i] == h;
      assert r[|p| - 1 - i] == h;
    }
  }

  // ---------------------------------------------------------------------
  // The search state shared by the BFS and the stack search

  /**
   * The traversal from `start` so far: `visited` is the nodes of `base`
   * (visited before this traversal began) and those of `order`, which are
   * new, distinct and listed in visiting order; whatever is listed or waits
   * in `pending` is live and reachable from `start` through `keep`.
   */
  ghost predicate Tour(s: Snapshot, keep: set<Handle>, start: Handle, base: set<Handle>, visited: set<Handle>,
                       order: seq<Handle>, pending: seq<Handle>)
  {
    && start !in base
    && (forall h :: h in visited <==> h in base || h in order)
    && (forall h | h in order :: h !in base)
    && Distinct(order)
    && (forall h | h in order :: h in s.nodes && Reaches(s, keep, start, h))
    && (forall h | h in pending :: h in s.nodes && Reaches(s, keep, start, h))
    && (order == [] ==> pending == [start])
    && (order != [] ==> order[0] == start)
  }

  /** Each `keep`-neighbour of a visited node is visited or still pending. */
  ghost predicate Frontier(s: Snapshot, keep: set<Handle>, visited: set<Handle>, pending: seq<Handle>)
  {
    forall v, w | v in visited && w in Nbrs(s, v) && w in keep :: w in visited || w in pending
  }

  lemma TourInit(s: Snapshot, keep: set<Handle>, start: Handle, base: set<Handle>)
    requires start in s.nodes && start !in base && Closed(s, keep, base)
    ensures Tour(s, keep, start, base, base, [], [start]) && Frontier(s, keep, base, [start])
  {
    ReachSelf(s, keep, start);
  }

  /** Taking an already visited node `x` out of the pending nodes. */
  lemma TourPopSeen(s: Snapshot, keep: set<Handle>, start: Handle, base: set<Handle>, visited: set<Handle>,
                    order: seq<Handle>, pending: seq<Handle>, x: Handle, rest: seq<Handle>)
    requires Tour(s, keep, start, base, visited, order, pending) && Frontier(s, keep, visited, pending)
    requires x in visited && (pending == [x] + rest || pending == rest + [x])
    ensures Tour(s, keep, start, base, visited, order, rest) && Frontier(s, keep, visited, rest)
  {
    assert forall h | h in pending :: h == x || h in rest;
  }

  /**
   * Visiting a pending node `x` not yet visited: it joins `order`, and its
   * `keep`-neighbours that are still unvisited (and maybe others) are added.
   */
  lemma TourPopNew(s: Snapshot, keep: set<Handle>, start: Handle, base: set<Handle>, visited: set<Handle>,
                   order: seq<Handle>, pending: seq<Handle>, x: Handle, rest: seq<Handle>, pushed: seq<Handle>)
    requires Symmetric(s)
    requires Tour(s, keep, start, base, visited, order, pending) && Frontier(s, keep, visited, pending)
    requires x !in visited && (pending == [x] + rest || pending == rest + [x])
    requires forall w | w in pushed :: w in Nbrs(s, x) && w in keep
    requires forall w | w in Nbrs(s, x) && w in keep && w !in visited + {x} :: w in pushed
    ensures Tour(s, keep, start, base, visited + {x}, order + [x], rest + pushed)
    ensures Frontier(s, keep, visited + {x}, rest + pushed)
  {
    assert x in pending;
    assert forall h | h in pending :: h == x || h in rest;
    forall w | w in pushed
      ensures w in s.nodes && Reaches(s, keep, start, w)
    {
      ReachStep(s, keep, start, x, w);
    }
    var order' := order + [x];
    assert Distinct(order') by {
      forall i, j | 0 <= i < j < |order'|
        ensures order'[i] != order'[j]
      {
        if j == |order| {
          assert order'[i] == order[i] && order[i] in visited;
        } else {
          assert order'[i] == order[i] && order'[j] == order[j];
        }
      }
    }
  }

  /** With nothing pending the visited set is closed, and `order` holds what is newly reachable. */
  lemma TourEnd(s: Snapshot, keep: set<Handle>, start: Handle, base: set<Handle>, visited: set<Handle>, order: seq<Handle>)
    requires Tour(s, keep, start, base, visited, order, []) && Frontier(s, keep, visited, [])
    ensures Closed(s, keep, visited) && order != [] && order[0] == start
    ensures forall h | Reaches(s, keep, start, h) :: h in base || h in order
  {
    assert start in visited;
    ClosedHoldsReachable(s, keep, visited, start);
  }

  // ---------------------------------------------------------------------
  // The BFS of bfs_spanning_tree, component_spanning_tree and triad_bfs

  /**
   * The inner loop of a BFS: each neighbour of `vertex` that lies in `keep`
   * and is not visited is appended to the queue, in neighbour-list order.
   */
  method QueueNeighbours(g: Graph, vertex: Handle, keep: set<Handle>, visited: set<Handle>, queue0: seq<Handle>)
    returns (queue: seq<Handle>)
    requires vertex < |g.store|
    ensures |queue0| <= |queue| && queue[..|queue0|] == queue0
    ensures forall w | w in queue[|queue0|..] :: w in Nbrs(g.Snap(), vertex) && w in keep && w !in visited
    ensures forall w | w in Nbrs(g.Snap(), vertex) && w in keep && w !in visited :: w in queue[|queue0|..]
  {
    var nbrs := g.store[vertex].neighbors;
    queue := queue0;
    for j := 0 to |nbrs|
      invariant |queue0| <= |queue| && queue[..|queue0|] == queue0
      invariant forall w | w in queue[|queue0|..] :: w in nbrs && w in keep && w !in visited
      invariant forall k | 0 <= k < j && nbrs[k] in keep && nbrs[k] !in visited :: nbrs[k] in queue[|queue0|..]
    {
      var node := nbrs[j];
      if node !in visited && node in keep {
        queue := queue + [node];
        assert queue[|queue0|..] == queue[|queue0|..|queue| - 1] + [node];
      }
    }
  }

  /**
   * One turn of the BFS loop: dequeue the head and, when it is not visited
   * yet, visit it and queue its unvisited neighbours in `keep`.
   */
  method BfsStep(g: Graph, keep: set<Handle>, start: Handle, visited0: set<Handle>, order0: seq<Handle>,
                 queue0: seq<Handle>)
    returns (visited: set<Handle>, order: seq<Handle>, queue: seq<Handle>)
    requires g.Valid() && queue0 != []
    requires Tour(g.Snap(), keep, start, {}, visited0, order0, queue0) && Frontier(g.Snap(), keep, visited0, queue0)
    ensures Tour(g.Snap(), keep, start, {}, visited, order, queue) && Frontier(g.Snap(), keep, visited, queue)
    ensures LiveSet(g.Snap()) - visited < LiveSet(g.Snap()) - visited0 || (visited == visited0 && |queue| < |queue0|)
  {
    ghost var s := g.Snap();
    var vertex := queue0[0];
    var rest := queue0[1..];
    assert queue0 == [vertex] + rest;
    if vertex !in visited0 {
      visited := visited0 + {vertex};
      order := order0 + [vertex];
      assert vertex in s.nodes;
      queue := QueueNeighbours(g, vertex, keep, visited, rest);
      WellFormedIsSymmetric(s);
      assert queue == rest + queue[|rest|..];
      TourPopNew(s, keep, start, {}, visited0, order0, queue0, vertex, rest, queue[|rest|..]);
      assert vertex in LiveSet(s) - visited0;
    } else {
      visited, order, queue := visited0, order0, rest;
      TourPopSeen(s, keep, start, {}, visited0, order0, queue0, vertex, rest);
    }
  }

  /**
   * The BFS order from `start` over the neighbours in `keep`: it begins with
   * `start`, repeats no node, and lists exactly the nodes reachable from
   * `start` through `keep`.
   */
  method BfsOrder(g: Graph, start: Handle, keep: set<Handle>) returns (order: seq<Handle>)
    requires g.Valid() && start in g.nodeList
    ensures |order| > 0 && order[0] == start && Distinct(order)
    ensures forall h | h in order :: h in g.nodeList
    ensures forall h :: h in order <==> Reaches(g.Snap(), keep, start, h)
  {
    ghost var s := g.Snap();
    var visited: set<Handle> := {};
    var queue := [start];
    order := [];
    TourInit(s, keep, start, {});
    while queue != []
      invariant Tour(s, keep, start, {}, visited, order, queue) && Frontier(s, keep, visited, queue)
      decreases LiveSet(s) - visited, |queue|
    {
      visited, order, queue := BfsStep(g, keep, start, visited, order, queue);
    }
    TourEnd(s, keep, start, {}, visited, order);
  }

  /**
   * `bfs_spanning_tree`: the BFS order from `node`, which lists exactly the
   * nodes of its connected component.
   */
  method BfsSpanningTree(g: Graph, node: Handle) returns (order: seq<Handle>)
    requires g.Valid() && node in g.nodeList
    ensures |order| > 0 && order[0] == node && Distinct(order)
    ensures forall h | h in order :: h in g.nodeList
    ensures forall h :: h in order <==> Reaches(g.Snap(), LiveSet(g.Snap()), node, h)
  {
    order := BfsOrder(g, node, LiveSet(g.Snap()));
  }

  /**
   * `component_spanning_tree`: the BFS order from the cut vertex that only
   * enters nodes listed in `component`.
   */
  method ComponentSpanningTree(g: Graph, component: seq<Handle>, cut: Handle) returns (tree: seq<Handle>)
    requires g.Valid() && cut in g.nodeList
    ensures |tree| > 0 && tree[0] == cut && Distinct(tree)
    ensures forall h | h in tree :: h in g.nodeList
    ensures forall h :: h in tree <==> Reaches(g.Snap(), (set k | k in component), cut, h)
  {
    tree := BfsOrder(g, cut, (set k | k in component));
  }

  /**
   * `triad_bfs`: the BFS order from `x` that never enters `y` or `z`,
   * followed by `y` and then `z`. Nodes that can only be reached through
   * `y` or `z` are missing from the order.
   */
  method TriadBfs(g: Graph, x: Handle, y: Handle, z: Handle) returns (tree: seq<Handle>)
    requires g.Valid() && x in g.nodeList && x != y && x != z
    ensures |tree| >= 3 && tree[0] == x && tree[|tree| - 2] == y && tree[|tree| - 1] == z
    ensures y !in tree[..|tree| - 2] && z !in tree[..|tree| - 2]
    ensures y != z ==> Distinct(tree)
    ensures forall h :: h in tree[..|tree| - 2] <==> Reaches(g.Snap(), LiveSet(g.Snap()) - {y, z}, x, h)
  {
    ghost var keep := LiveSet(g.Snap()) - {y, z};
    var order := BfsOrder(g, x, LiveSet(g.Snap()) - {y, z});
    forall h | h in order
      ensures h != y && h != z
    {
      if h != x {
        ReachKeep(g.Snap(), keep, x, h);
      }
    }
    tree := order + [y, z];
    assert tree[..|tree| - 2] == order;
  }

  // ---------------------------------------------------------------------
  // connected_components

  /** A component without the cut vertex appended at its end. */
  function Members(c: seq<Handle>): seq<Handle>
  {
    if c == [] then [] else c[..|c| - 1]
  }

  /**
   * A component of `connected_components`: a neighbour of the cut vertex,
   * then the other nodes reachable from it without passing the cut vertex,
   * each once, then the cut vertex.
   */
  ghost predicate Component(s: Snapshot, cut: Handle, c: seq<Handle>)
  {
    && |c| >= 2 && c[|c| - 1] == cut && c[0] in Nbrs(s, cut) && Distinct(Members(c))
    && forall h :: h in Members(c) <==> Reaches(s, LiveSet(s) - {cut}, c[0], h)
  }

  /** No node other than the cut vertex belongs to two components. */
  ghost predicate Disjoint(cs: seq<seq<Handle>>)
  {
    forall a, b, h | 0 <= a < b < |cs| && h in Members(cs[a]) :: h !in Members(cs[b])
  }

  /**
   * The inner loop of a stack search: every neighbour of `vertex` other than
   * the cut vertex is pushed, visited or not.
   */
  method PushNeighbours(g: Graph, vertex: Handle, cut: Handle, stack0: seq<Handle>) returns (stack: seq<Handle>)
    requires vertex < |g.store|
    ensures |stack0| <= |stack| && stack[..|stack0|] == stack0
    ensures forall w | w in stack[|stack0|..] :: w in Nbrs(g.Snap(), vertex) && w != cut
    ensures forall w | w in Nbrs(g.Snap(), vertex) && w != cut :: w in stack[|stack0|..]
  {
    var nbrs := g.store[vertex].neighbors;
    stack := stack0;
    for j := 0 to |nbrs|
      invariant |stack0| <= |stack| && stack[..|stack0|] == stack0
      invariant forall w | w in stack[|stack0|..] :: w in nbrs && w != cut
      invariant forall k | 0 <= k < j && nbrs[k] != cut :: nbrs[k] in stack[|stack0|..]
    {
      var neighbor := nbrs[j];
      if neighbor != cut {
        stack := stack + [neighbor];
        assert stack[|stack0|..] == stack[|stack0|..|stack| - 1] + [neighbor];
      }
    }
  }

  /** One turn of the stack loop: pop the top and, when it is not visited yet, visit it and push its neighbours. */
  method DfsStep(g: Graph, cut: Handle, v: Handle, base: set<Handle>, visited0: set<Handle>, component0: seq<Handle>,
                 stack0: seq<Handle>)
    returns (visited: set<Handle>, component: seq<Handle>, stack: seq<Handle>)
    requires g.Valid() && stack0 != [] && cut in g.nodeList
    requires Tour(g.Snap(), LiveSet(g.Snap()) - {cut}, v, base, visited0, component0, stack0)
    requires Frontier(g.Snap(), LiveSet(g.Snap()) - {cut}, visited0, stack0)
    ensures Tour(g.Snap(), LiveSet(g.Snap()) - {cut}, v, base, visited, component, stack)
    ensures Frontier(g.Snap(), LiveSet(g.Snap()) - {cut}, visited, stack)
    ensures LiveSet(g.Snap()) - visited < LiveSet(g.Snap()) - visited0 || (visited == visited0 && |stack| < |stack0|)
  {
    ghost var s := g.Snap();
    ghost var keep := LiveSet(s) - {cut};
    var vertex := stack0[|stack0| - 1];
    var rest := stack0[..|stack0| - 1];
    assert stack0 == rest + [vertex];
    if vertex !in visited0 {
      visited := visited0 + {vertex};
      component := component0 + [vertex];
      assert vertex in s.nodes;
      stack := PushNeighbours(g, vertex, cut, rest);
      WellFormedIsSymmetric(s);
      var pushed := stack[|rest|..];
      PrefixSplit(stack, rest);
      PushedKept(s, vertex, cut, pushed);
      TourPopNew(s, keep, v, base, visited0, component0, stack0, vertex, rest, pushed);
      assert vertex in LiveSet(s) - visited0;
    } else {
      visited, component, stack := visited0, component0, rest;
      TourPopSeen(s, keep, v, base, visited0, component0, stack0, vertex, rest);
    }
  }

  /** A sequence that starts with `a` is `a` followed by the rest. */
  lemma PrefixSplit(b: seq<Handle>, a: seq<Handle>)
    requires |a| <= |b| && b[..|a|] == a
    ensures b == a + b[|a|..]
  {
    assert b == b[..|a|] + b[|a|..];
  }

  /** The neighbours of a listed node, other than the cut vertex, are live nodes other than the cut vertex. */
  lemma PushedKept(s: Snapshot, vertex: Handle, cut: Handle, pushed: seq<Handle>)
    requires WellFormed(s) && vertex in s.nodes
    requires forall w | w in pushed :: w in Nbrs(s, vertex) && w != cut
    ensures forall w | w in pushed :: w in LiveSet(s) - {cut}
  {
  }

  /**
   * The stack search `connected_components` runs from the cut-vertex
   * neighbour `v`: it visits exactly the nodes reachable from `v` without
   * passing the cut vertex, none of which was visited before.
   */
  method DfsComponent(g: Graph, cut: Handle, v: Handle, visited0: set<Handle>)
    returns (visited: set<Handle>, component: seq<Handle>)
    requires g.Valid() && cut in g.nodeList && v in g.nodeList && v != cut && v !in visited0
    requires forall h | h in visited0 :: h in g.nodeList && h != cut
    requires Closed(g.Snap(), LiveSet(g.Snap()) - {cut}, visited0)
    ensures |component| > 0 && component[0] == v && Distinct(component)
    ensures forall h :: h in visited <==> h in visited0 || h in component
    ensures forall h | h in component :: h !in visited0
    ensures forall h :: h in component <==> Reaches(g.Snap(), LiveSet(g.Snap()) - {cut}, v, h)
    ensures forall h | h in visited :: h in g.nodeList && h != cut
    ensures Closed(g.Snap(), LiveSet(g.Snap()) - {cut}, visited)
  {
    ghost var s := g.Snap();
    ghost var keep := LiveSet(s) - {cut};
    visited := visited0;
    component := [];
    var stack := [v];
    TourInit(s, keep, v, visited0);
    while stack != []
      invariant Tour(s, keep, v, visited0, visited, component, stack) && Frontier(s, keep, visited, stack)
      decreases LiveSet(s) - visited, |stack|
    {
      visited, component, stack := DfsStep(g, cut, v, visited0, visited, component, stack);
    }
    TourEnd(s, keep, v, visited0, visited, component);
    WellFormedIsSymmetric(s);
    forall h | Reaches(s, keep, v, h)
      ensures h in component
    {
      if h in visited0 {
        ReachBack(s, keep, v, h);
        ClosedHoldsReachable(s, keep, visited0, h);
        assert false;
      }
    }
    forall h | h in component
      ensures h != cut
    {
      if h != v {
        ReachKeep(s, keep, v, h);
      }
    }
  }

  /** The loop state of `connected_components` after each neighbour of the cut vertex. */
  ghost predicate Split(s: Snapshot, cut: Handle, visited: set<Handle>, cs: seq<seq<Handle>>, owner: map<Handle, nat>)
  {
    && (forall h | h in visited :: h in s.nodes && h != cut)
    && Closed(s, LiveSet(s) - {cut}, visited)
    && (forall a | 0 <= a < |cs| :: Component(s, cut, cs[a]))
    && (forall a, h | 0 <= a < |cs| && h in Members(cs[a]) :: h in visited)
    && (forall h | h in visited :: h in owner && owner[h] < |cs| && h in Members(cs[owner[h]]))
    && Disjoint(cs)
  }

  /** Every node of `component` now belongs to component number `a`. */
  ghost function Claim(owner: map<Handle, nat>, component: seq<Handle>, a: nat): map<Handle, nat>
  {
    map h | h in owner.Keys + (set k | k in component) :: if h in component then a else owner[h]
  }

  /** A finished stack search adds one component and keeps the split state. */
  lemma SplitGrow(s: Snapshot, cut: Handle, visited: set<Handle>, cs: seq<seq<Handle>>, owner: map<Handle, nat>,
                  visited': set<Handle>, component: seq<Handle>)
    requires Split(s, cut, visited, cs, owner)
    requires |component| > 0 && component[0] in Nbrs(s, cut) && Distinct(component)
    requires forall h :: h in visited' <==> h in visited || h in component
    requires forall h | h in component :: h !in visited
    requires forall h :: h in component <==> Reaches(s, LiveSet(s) - {cut}, component[0], h)
    requires forall h | h in visited' :: h in s.nodes && h != cut
    requires Closed(s, LiveSet(s) - {cut}, visited')
    ensures Split(s, cut, visited', cs + [component + [cut]], Claim(owner, component, |cs|))
  {
    var c := component + [cut];
    var cs' := cs + [c];
    assert Members(c) == component;
    assert Component(s, cut, c);
    forall a | 0 <= a < |cs'|
      ensures Component(s, cut, cs'[a])
    {
      if a < |cs| {
        assert cs'[a] == cs[a];
      }
    }
    var owner' := Claim(owner, component, |cs|);
    forall h | h in visited'
      ensures h in owner' && owner'[h] < |cs'| && h in Members(cs'[owner'[h]])
    {
      if h in component {
        assert cs'[|cs|] == c;
      } else {
        assert cs'[owner[h]] == cs[owner[h]];
      }
    }
    forall a, b, h | 0 <= a < b < |cs'| && h in Members(cs'[a])
      ensures h !in Members(cs'[b])
    {
      assert cs'[a] == cs[a];
      if b == |cs| {
        assert h in visited;
        assert cs'[b] == c;
      } else {
        assert cs'[b] == cs[b];
      }
    }
  }

  lemma PrefixGrows(nbrs: seq<Handle>, i: nat, before: set<Handle>, visited: set<Handle>)
    requires i < |nbrs| && (forall k | 0 <= k < i :: nbrs[k] in before) && before <= visited && nbrs[i] in visited
    ensures forall k | 0 <= k < i + 1 :: nbrs[k] in visited
  {
  }

  /** The place of the first `x` in `ns`, or `|ns|` when there is none. */
  function Place(ns: seq<Handle>, x: Handle): (k: nat)
    ensures k <= |ns| && (k < |ns| <==> x in ns)
    ensures k < |ns| ==> ns[k] == x
    ensures forall j | 0 <= j < k :: ns[j] != x
  {
    if ns == [] then 0
    else if ns[0] == x then 0
    else 1 + Place(ns[1..], x)
  }

  /**
   * The components `cs` come in the order the loop over the neighbour list
   * `ns` of the cut vertex starts them: the starts lie at increasing first
   * places of `ns`, and no neighbour listed before the start of a
   * component belongs to it.
   */
  ghost predicate NeighbourOrder(ns: seq<Handle>, cs: seq<seq<Handle>>)
  {
    StartsRise(ns, cs) && StartsFirst(ns, cs)
  }

  /** Each component starts at a later place of `ns` than the one before it. */
  ghost predicate StartsRise(ns: seq<Handle>, cs: seq<seq<Handle>>)
  {
    forall a, b {:trigger Place(ns, cs[a][0]), Place(ns, cs[b][0])}
      | 0 <= a && b == a + 1 && b < |cs| && |cs[a]| > 0 && |cs[b]| > 0 ::
      Place(ns, cs[a][0]) < Place(ns, cs[b][0])
  }

  /** No neighbour listed before the start of a component belongs to it. */
  ghost predicate StartsFirst(ns: seq<Handle>, cs: seq<seq<Handle>>)
  {
    forall a, j {:trigger ns[j], Place(ns, cs[a][0])} | 0 <= a < |cs| && |cs[a]| > 0 && 0 <= j < Place(ns, cs[a][0]) ::
      ns[j] !in Members(cs[a])
  }

  /** The starts of components in `NeighbourOrder` increase from `a` to any later `b`. */
  lemma {:induction false} StartsIncrease(ns: seq<Handle>, cs: seq<seq<Handle>>, a: int, b: int)
    requires NeighbourOrder(ns, cs) && forall k | 0 <= k < |cs| :: |cs[k]| > 0
    requires 0 <= a < b < |cs|
    ensures Place(ns, cs[a][0]) < Place(ns, cs[b][0])
    decreases b - a
  {
    if a + 1 < b {
      StartsIncrease(ns, cs, a + 1, b);
    }
  }

  /**
   * In `NeighbourOrder`, component `a` starts at the first neighbour that
   * no earlier component holds: every neighbour listed before its start
   * lies in none of the components from `a` on.
   */
  lemma ComponentsInOrder(ns: seq<Handle>, cs: seq<seq<Handle>>)
    requires NeighbourOrder(ns, cs) && forall k | 0 <= k < |cs| :: |cs[k]| > 0
    ensures forall a, b | 0 <= a < b < |cs| :: Place(ns, cs[a][0]) < Place(ns, cs[b][0])
    ensures forall a, b, j | 0 <= a <= b < |cs| && 0 <= j < Place(ns, cs[a][0]) :: ns[j] !in Members(cs[b])
  {
    forall a, b | 0 <= a < b < |cs|
      ensures Place(ns, cs[a][0]) < Place(ns, cs[b][0])
    {
      StartsIncrease(ns, cs, a, b);
    }
  }

  /** A component started at the unvisited `ns[i]`, of nodes unvisited before, keeps the order. */
  lemma OrderGrows(ns: seq<Handle>, cs: seq<seq<Handle>>, c: seq<Handle>, visited: set<Handle>, i: int)
    requires 0 <= i < |ns| && NeighbourOrder(ns, cs) && (forall j | 0 <= j < i :: ns[j] in visited)
    requires forall a | 0 <= a < |cs| && |cs[a]| > 0 :: Place(ns, cs[a][0]) < i
    requires |c| > 0 && c[0] == ns[i] && ns[i] !in visited && forall h | h in Members(c) :: h !in visited
    ensures NeighbourOrder(ns, cs + [c])
    ensures forall a | 0 <= a < |cs + [c]| && |(cs + [c])[a]| > 0 :: Place(ns, (cs + [c])[a][0]) < i + 1
  {
    assert Place(ns, c[0]) == i;
    RiseGrows(ns, cs, c, i);
    FirstGrows(ns, cs, c, visited, i);
  }

  /** A component started at place `i`, after every earlier start, keeps the starts rising. */
  lemma RiseGrows(ns: seq<Handle>, cs: seq<seq<Handle>>, c: seq<Handle>, i: int)
    requires StartsRise(ns, cs) && forall a | 0 <= a < |cs| && |cs[a]| > 0 :: Place(ns, cs[a][0]) < i
    requires |c| > 0 && Place(ns, c[0]) == i
    ensures StartsRise(ns, cs + [c])
  {
    var cs' := cs + [c];
    forall a, b | 0 <= a && b == a + 1 && b < |cs'| && |cs'[a]| > 0 && |cs'[b]| > 0
      ensures Place(ns, cs'[a][0]) < Place(ns, cs'[b][0])
    {
      assert cs'[a] == cs[a];
      if b < |cs| {
        assert cs'[b] == cs[b];
      }
    }
  }

  /** A component of nodes unvisited before, started at place `i` after only visited neighbours, keeps `StartsFirst`. */
  lemma FirstGrows(ns: seq<Handle>, cs: seq<seq<Handle>>, c: seq<Handle>, visited: set<Handle>, i: int)
    requires StartsFirst(ns, cs) && i <= |ns| && (forall j | 0 <= j < i :: ns[j] in visited)
    requires |c| > 0 && Place(ns, c[0]) == i && forall h | h in Members(c) :: h !in visited
    ensures StartsFirst(ns, cs + [c])
  {
    var cs' := cs + [c];
    forall a, j | 0 <= a < |cs'| && |cs'[a]| > 0 && 0 <= j < Place(ns, cs'[a][0])
      ensures ns[j] !in Members(cs'[a])
    {
      if a < |cs| {
        assert cs'[a] == cs[a];
      } else {
        assert ns[j] in visited;
      }
    }
  }

  /**
   * One turn of the loop of `connected_components`: the stack search from
   * the unvisited neighbour `v` of the cut vertex makes a new component.
   */
  method AddComponent(g: Graph, cut: Handle, v: Handle, visited0: set<Handle>, cs0: seq<seq<Handle>>,
                      ghost owner0: map<Handle, nat>)
    returns (visited: set<Handle>, cs: seq<seq<Handle>>, ghost owner: map<Handle, nat>)
    requires g.Valid() && cut in g.nodeList && v in Nbrs(g.Snap(), cut) && v !in visited0
    requires Split(g.Snap(), cut, visited0, cs0, owner0)
    ensures Split(g.Snap(), cut, visited, cs, owner)
    ensures visited0 <= visited && v in visited
    ensures |cs| == |cs0| + 1 && cs == cs0 + [cs[|cs0|]] && |cs[|cs0|]| > 0 && cs[|cs0|][0] == v
    ensures forall h | h in Members(cs[|cs0|]) :: h !in visited0
  {
    ghost var s := g.Snap();
    assert v in s.nodes && v != cut;
    var component;
    visited, component := DfsComponent(g, cut, v, visited0);
    SplitGrow(s, cut, visited0, cs0, owner0, visited, component);
    cs := cs0 + [component + [cut]];
    owner := Claim(owner0, component, |cs0|);
    assert Members(cs[|cs0|]) == component;
  }

  /**
   * `connected_components`: for each neighbour of the cut vertex not yet
   * visited, the nodes reachable from it without passing the cut vertex,
   * followed by the cut vertex. The components share no node but the cut
   * vertex, and every neighbour of the cut vertex lies in one of them.
   * They come in the order of the neighbour list: each starts at the first
   * neighbour that no earlier one holds.
   */
  method ConnectedComponents(g: Graph, cut: Handle) returns (components: seq<seq<Handle>>)
    requires g.Valid() && cut in g.nodeList
    ensures forall a | 0 <= a < |components| :: Component(g.Snap(), cut, components[a])
    ensures Disjoint(components)
    ensures forall v | v in Nbrs(g.Snap(), cut) :: exists a | 0 <= a < |components| :: v in Members(components[a])
    ensures NeighbourOrder(Nbrs(g.Snap(), cut), components)
  {
    ghost var s := g.Snap();
    var visited: set<Handle> := {};
    components := [];
    ghost var owner: map<Handle, nat> := map[];
    var nbrs := g.store[cut].neighbors;
    for i := 0 to |nbrs|
      invariant Split(s, cut, visited, components, owner)
      invariant forall k | 0 <= k < i :: nbrs[k] in visited
      invariant NeighbourOrder(nbrs, components)
      invariant forall a | 0 <= a < |components| && |components[a]| > 0 :: Place(nbrs, components[a][0]) < i
    {
      var v := nbrs[i];
      ghost var before := visited;
      if v !in visited {
        ghost var cs0 := components;
        visited, components, owner := AddComponent(g, cut, v, visited, components, owner);
        OrderGrows(nbrs, cs0, components[|cs0|], before, i);
      }
      assert before <= visited && nbrs[i] in visited;
      PrefixGrows(nbrs, i, before, visited);
    }
    forall v | v in Nbrs(s, cut)
      ensures exists a | 0 <= a < |components| :: v in Members(components[a])
    {
      assert v in visited;
      var a := owner[v];
      assert v in Members(components[a]);
    }
  }
}

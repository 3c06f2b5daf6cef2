/**
 * The Brooks-style colouring of GraphAlgorithms.py: `max_min_degree`,
 * `find_triad` and `brooks_algorithm`, which picks one of three ways to
 * order the nodes for `greedy_coloring`: from a node of least degree when
 * the degrees differ, around a cut vertex when there is one, and otherwise
 * around a triad whose two outer nodes are coloured first.
 */
module Brooks {

  import opened Wrappers
  import opened GraphNode
  import opened GraphStore
  import opened Traversal
  import opened Greedy
  import opened CutVertex

  // ---------------------------------------------------------------------
  // max_min_degree

  /** `len(node.neighbors)`: a node joined twice to another counts it twice. */
  function Degree(s: Snapshot, h: Handle): nat
  {
    |Nbrs(s, h)|
  }

  /** The place of the first node of highest degree among the first `n` of `nodes`. */
  function MaxAt(s: Snapshot, nodes: seq<Handle>, n: nat): (i: nat)
    requires 0 < n <= |nodes|
    ensures i < n
    ensures forall j | 0 <= j < n :: Degree(s, nodes[j]) <= Degree(s, nodes[i])
    ensures forall j | 0 <= j < i :: Degree(s, nodes[j]) < Degree(s, nodes[i])
  {
    if n == 1 then 0
    else
      var i := MaxAt(s, nodes, n - 1);
      if Degree(s, nodes[n - 1]) > Degree(s, nodes[i]) then n - 1 else i
  }

  /** The place of the first node of least degree among the first `n` of `nodes`. */
  function MinAt(s: Snapshot, nodes: seq<Handle>, n: nat): (i: nat)
    requires 0 < n <= |nodes|
    ensures i < n
    ensures forall j | 0 <= j < n :: Degree(s, nodes[i]) <= Degree(s, nodes[j])
    ensures forall j | 0 <= j < i :: Degree(s, nodes[i]) < Degree(s, nodes[j])
  {
    if n == 1 then 0
    else
      var i := MinAt(s, nodes, n - 1);
      if Degree(s, nodes[n - 1]) < Degree(s, nodes[i]) then n - 1 else i
  }

  /** The node `max_min_degree` returns first: the first node of highest degree. */
  function MaxNode(s: Snapshot): Handle
    requires s.nodes != []
  {
    s.nodes[MaxAt(s, s.nodes, |s.nodes|)]
  }

  /** The node `max_min_degree` returns second: the first node of least degree. */
  function MinNode(s: Snapshot): Handle
    requires s.nodes != []
  {
    s.nodes[MinAt(s, s.nodes, |s.nodes|)]
  }

  /** All listed nodes have the same degree. */
  ghost predicate Regular(s: Snapshot)
  {
    forall h, k | h in s.nodes && k in s.nodes :: Degree(s, h) == Degree(s, k)
  }

  /**
   * The test of `brooks_algorithm`: the least degree is below the highest
   * exactly when the degrees are not all the same.
   */
  lemma DegreesDifferIffIrregular(s: Snapshot)
    requires s.nodes != []
    ensures Degree(s, MinNode(s)) < Degree(s, MaxNode(s)) <==> !Regular(s)
  {
    var n := |s.nodes|;
    var lo, hi := MinAt(s, s.nodes, n), MaxAt(s, s.nodes, n);
    if Degree(s, MinNode(s)) >= Degree(s, MaxNode(s)) {
      forall h, k | h in s.nodes && k in s.nodes
        ensures Degree(s, h) == Degree(s, k)
      {
        var a :| 0 <= a < n && s.nodes[a] == h;
        var b :| 0 <= b < n && s.nodes[b] == k;
        assert Degree(s, s.nodes[lo]) <= Degree(s, s.nodes[a]) <= Degree(s, s.nodes[hi]);
        assert Degree(s, s.nodes[lo]) <= Degree(s, s.nodes[b]) <= Degree(s, s.nodes[hi]);
      }
    } else {
      assert MinNode(s) in s.nodes && MaxNode(s) in s.nodes;
    }
  }

  /**
   * `max_min_degree`: the first node of highest degree and the first node
   * of least degree, in list order; `None` for a graph without nodes, where
   * the Python code fails on `node_list[0]`.
   */
  method MaxMinDegree(g: Graph) returns (r: Option<(Handle, Handle)>)
    ensures r == None <==> g.nodeList == []
    ensures r.Some? ==> r.value == (MaxNode(g.Snap()), MinNode(g.Snap()))
  {
    var s := g.Snap();
    var nodes := s.nodes;
    if nodes == [] {
      return None;
    }
    var minDegree := Degree(s, nodes[0]);
    var maxDegree := minDegree;
    var minNode, maxNode := nodes[0], nodes[0];
    ghost var lo, hi := 0, 0;
    // The Python loop also visits `node_list[0]`, which changes nothing.
    for i := 1 to |nodes|
      invariant hi == MaxAt(s, nodes, i) && maxNode == nodes[hi] && maxDegree == Degree(s, maxNode)
      invariant lo == MinAt(s, nodes, i) && minNode == nodes[lo] && minDegree == Degree(s, minNode)
    {
      var neighborhood := Degree(s, nodes[i]);
      if neighborhood < minDegree {
        minDegree, minNode, lo := neighborhood, nodes[i], i;
      }
      if neighborhood > maxDegree {
        maxDegree, maxNode, hi := neighborhood, nodes[i], i;
      }
    }
    return Some((maxNode, minNode));
  }

  // ---------------------------------------------------------------------
  // find_triad

  /** `y` and `z` are two different neighbours of `x`, and `z` is not a neighbour of `y`. */
  predicate Triad(s: Snapshot, x: Handle, y: Handle, z: Handle)
  {
    y in Nbrs(s, x) && z in Nbrs(s, x) && y != z && z !in Nbrs(s, y)
  }

  /** Every two different neighbours of `x`, taken in either order, are joined. */
  predicate NoTriadAt(s: Snapshot, x: Handle)
  {
    var ns := Nbrs(s, x);
    forall a, b | 0 <= a < |ns| && 0 <= b < |ns| :: ns[a] == ns[b] || ns[b] in Nbrs(s, ns[a])
  }

  /** Under `NoTriadAt`, two different neighbours of `x` are joined. */
  lemma JoinedAround(s: Snapshot, x: Handle, y: Handle, z: Handle)
    requires NoTriadAt(s, x) && y in Nbrs(s, x) && z in Nbrs(s, x) && y != z
    ensures z in Nbrs(s, y)
  {
    var ns := Nbrs(s, x);
    var a :| 0 <= a < |ns| && ns[a] == y;
    var b :| 0 <= b < |ns| && ns[b] == z;
  }

  /** `NoTriadAt` says exactly that no triad is centred at `x`. */
  lemma NoTriadAtIffNone(s: Snapshot, x: Handle)
    ensures NoTriadAt(s, x) <==> forall y, z :: !Triad(s, x, y, z)
  {
    var ns := Nbrs(s, x);
    if NoTriadAt(s, x) {
      forall y, z | y in ns && z in ns && y != z
        ensures z in Nbrs(s, y)
      {
        JoinedAround(s, x, y, z);
      }
    } else {
      var a, b :| 0 <= a < |ns| && 0 <= b < |ns| && !(ns[a] == ns[b] || ns[b] in Nbrs(s, ns[a]));
      assert Triad(s, x, ns[a], ns[b]);
    }
  }

  /**
   * Every pair of places `(a, b)` of `x`'s neighbour list that the two inner
   * loops of `find_triad` visit before `(i, j)` holds equal or joined nodes.
   */
  ghost predicate JoinedBefore(s: Snapshot, x: Handle, i: nat, j: nat)
  {
    var ns := Nbrs(s, x);
    && (forall a, b | 0 <= a < i && a < |ns| && 0 <= b < |ns| :: ns[a] == ns[b] || ns[b] in Nbrs(s, ns[a]))
    && (i < |ns| ==> forall b | 0 <= b < j && b < |ns| :: ns[i] == ns[b] || ns[b] in Nbrs(s, ns[i]))
  }

  /** `(y, z)` sits at a pair of places of `x`'s neighbour list scanned after every joined pair. */
  ghost predicate FirstPairAt(s: Snapshot, x: Handle, y: Handle, z: Handle)
  {
    exists i, j | 0 <= i < |Nbrs(s, x)| && 0 <= j < |Nbrs(s, x)| ::
      Nbrs(s, x)[i] == y && Nbrs(s, x)[j] == z && JoinedBefore(s, x, i, j)
  }

  /** `x` is listed, and no node listed before it is the centre of a triad. */
  ghost predicate FirstCentre(s: Snapshot, nodes: seq<Handle>, x: Handle)
  {
    exists i | 0 <= i < |nodes| :: nodes[i] == x && forall j | 0 <= j < i :: NoTriadAt(s, nodes[j])
  }

  /** A triad pair at places `(i, j)` comes no earlier in the scan than a first triad pair at `(i', j')`. */
  lemma NotBefore(s: Snapshot, x: Handle, i: nat, j: nat, i': nat, j': nat)
    requires i < |Nbrs(s, x)| && j < |Nbrs(s, x)| && JoinedBefore(s, x, i', j')
    requires Triad(s, x, Nbrs(s, x)[i], Nbrs(s, x)[j])
    ensures i' <= i && (i == i' ==> j' <= j)
  {
  }

  /** The pair `find_triad` answers at `x` is determined: two first triad pairs are the same pair. */
  lemma FirstPairUnique(s: Snapshot, x: Handle, y: Handle, z: Handle, y': Handle, z': Handle)
    requires Triad(s, x, y, z) && FirstPairAt(s, x, y, z)
    requires Triad(s, x, y', z') && FirstPairAt(s, x, y', z')
    ensures y == y' && z == z'
  {
    var ns := Nbrs(s, x);
    var i, j :| 0 <= i < |ns| && 0 <= j < |ns| && ns[i] == y && ns[j] == z && JoinedBefore(s, x, i, j);
    var i', j' :| 0 <= i' < |ns| && 0 <= j' < |ns| && ns[i'] == y' && ns[j'] == z' && JoinedBefore(s, x, i', j');
    NotBefore(s, x, i, j, i', j');
    NotBefore(s, x, i', j', i, j);
  }

  /** The centre `find_triad` answers is determined: two first centres are the same node. */
  lemma FirstCentreUnique(s: Snapshot, nodes: seq<Handle>, x: Handle, x': Handle)
    requires FirstCentre(s, nodes, x) && !NoTriadAt(s, x)
    requires FirstCentre(s, nodes, x') && !NoTriadAt(s, x')
    ensures x == x'
  {
    var i :| 0 <= i < |nodes| && nodes[i] == x && forall j | 0 <= j < i :: NoTriadAt(s, nodes[j]);
    var i' :| 0 <= i' < |nodes| && nodes[i'] == x' && forall j | 0 <= j < i' :: NoTriadAt(s, nodes[j]);
  }

  /** The two inner loops of `find_triad` at `x`: the first pair that makes a triad with it. */
  method TriadAt(g: Graph, x: Handle) returns (r: Option<(Handle, Handle)>)
    ensures r.Some? ==> Triad(g.Snap(), x, r.value.0, r.value.1) && FirstPairAt(g.Snap(), x, r.value.0, r.value.1)
    ensures r.None? ==> NoTriadAt(g.Snap(), x)
  {
    ghost var s := g.Snap();
    var nbrs := Nbrs(g.Snap(), x);
    for i := 0 to |nbrs|
      invariant forall a, b | 0 <= a < i && 0 <= b < |nbrs| :: nbrs[a] == nbrs[b] || nbrs[b] in Nbrs(s, nbrs[a])
    {
      var y := nbrs[i];
      for j := 0 to |nbrs|
        invariant forall b | 0 <= b < j :: y == nbrs[b] || nbrs[b] in Nbrs(s, y)
      {
        var z := nbrs[j];
        if y != z && z !in Nbrs(g.Snap(), y) {
          assert JoinedBefore(s, x, i, j);
          return Some((y, z));
        }
      }
    }
    return None;
  }

  /**
   * `find_triad`: the first node in list order at which some triad is
   * centred, with the first such pair of its neighbours; `None` when there
   * is no triad at all, where the Python code returns `None`.
   */
  method FindTriad(g: Graph) returns (r: Option<(Handle, Handle, Handle)>)
    ensures r.Some? ==> r.value.0 in g.nodeList && Triad(g.Snap(), r.value.0, r.value.1, r.value.2)
    ensures r.Some? ==> FirstCentre(g.Snap(), g.nodeList, r.value.0)
    ensures r.Some? ==> FirstPairAt(g.Snap(), r.value.0, r.value.1, r.value.2)
    ensures r.None? ==> forall x | x in g.nodeList :: NoTriadAt(g.Snap(), x)
  {
    var nodes := g.nodeList;
    for i := 0 to |nodes|
      invariant forall j | 0 <= j < i :: NoTriadAt(g.Snap(), nodes[j])
    {
      var pair := TriadAt(g, nodes[i]);
      if pair.Some? {
        return Some((nodes[i], pair.value.0, pair.value.1));
      }
    }
    return None;
  }

  // ---------------------------------------------------------------------
  // Facts about greedy runs used by the three branches

  /** No live node wears a colour. */
  ghost predicate AllUncoloured(s: Snapshot)
  {
    forall h | h in s.nodes :: ColourOf(s, h) == Uncoloured
  }

  /** From a graph without colours, a run over live nodes leaves a proper partial colouring. */
  lemma ProperFromBlank(s: Snapshot, order: seq<Handle>)
    requires WellFormed(s) && AllUncoloured(s) && forall h | h in order :: h in s.nodes
    ensures ProperSoFar(GreedyRun(s, order, |order|).s)
  {
    WellFormedIsSymmetric(s);
    GreedyProper(s, order, |order|);
  }

  /** Nodes none of which wears a colour contribute no colour but `Uncoloured`. */
  lemma {:induction false} NoColoursAmong(s: Snapshot, hs: seq<Handle>)
    requires forall i | 0 <= i < |hs| :: ColourOf(s, hs[i]) == Uncoloured
    ensures ColoursOf(s, hs) <= {Uncoloured}
  {
    if hs != [] {
      NoColoursAmong(s, hs[..|hs| - 1]);
    }
  }

  /** A node none of whose neighbours wears a colour is given colour 0. */
  lemma PickAmongBlank(s: Snapshot, v: Handle, top: int)
    requires top >= 0 && forall k | k in Nbrs(s, v) :: ColourOf(s, k) == Uncoloured
    ensures Pick(s, v, top) == 0
  {
    NoColoursAmong(s, Nbrs(s, v));
  }

  /**
   * The point of the triad branch: on a graph without colours, a list that
   * starts with `z` and then `y`, two live nodes with `z` not a neighbour
   * of `y`, gives both of them colour 0.
   */
  lemma TriadEndsShareColour(s: Snapshot, y: Handle, z: Handle, order: seq<Handle>)
    requires WellFormed(s) && AllUncoloured(s) && y in s.nodes && z in s.nodes && y != z && z !in Nbrs(s, y)
    requires |order| >= 2 && order[0] == z && order[1] == y
    ensures ColourOf(GreedyRun(s, order, |order|).s, y) == 0
    ensures ColourOf(GreedyRun(s, order, |order|).s, z) == 0
  {
    var r0 := GreedyRun(s, order, 0);
    PickAmongBlank(s, z, 0);
    var r1 := GreedyRun(s, order, 1);
    assert r1 == Step(r0, z);
    StepRecolours(r0, z);
    assert ColourOf(r1.s, z) == 0;
    assert Nbrs(r1.s, y) == Nbrs(s, y);
    forall k | k in Nbrs(r1.s, y)
      ensures ColourOf(r1.s, k) == Uncoloured
    {
      assert k in s.nodes && k != z;
    }
    PickAmongBlank(r1.s, y, r1.top);
    var r2 := GreedyRun(s, order, 2);
    assert r2 == Step(r1, y);
    StepRecolours(r1, y);
    ColouredStays(s, order, 2, |order|, y);
    ColouredStays(s, order, 2, |order|, z);
  }

  /** The outcome of `brooks_algorithm`: the branch taken, or where the Python code fails. */
  datatype Outcome =
    | NoNodes                      // `node_list[0]` raises IndexError in `max_min_degree`
    | ByDegree(tree: seq<Handle>)  // degrees differ: the reversed BFS order from a node of least degree
    | ByCutVertex(cut: Handle, components: seq<seq<Handle>>, tree1: seq<Handle>, tree2: seq<Handle>)
    | FewComponents(cut: Handle)   // fewer than two components: `components[...]` raises IndexError
    | ByTriad(x: Handle, y: Handle, z: Handle, tree: seq<Handle>)
    | NoTriad                      // `find_triad` returns None, whose unpacking raises TypeError

  /**
   * What the second branch leaves, from `s` to `s2`: at least two genuine,
   * disjoint components of the graph around `out.cut`, in neighbour order;
   * `tree1` and `tree2` end with the cut vertex and hold exactly what it
   * reaches through the first and the second component; and `s2` is `s`
   * greedily coloured along `tree1`, then along `tree2`.
   */
  ghost predicate ColouredAroundCut(s: Snapshot, s2: Snapshot, out: Outcome)
    requires out.ByCutVertex?
  {
    && |out.components| >= 2
    && (forall a | 0 <= a < |out.components| :: Component(s, out.cut, out.components[a]))
    && Disjoint(out.components) && NeighbourOrder(Nbrs(s, out.cut), out.components)
    && |out.tree1| > 0 && out.tree1[|out.tree1| - 1] == out.cut
    && |out.tree2| > 0 && out.tree2[|out.tree2| - 1] == out.cut
    && (forall h :: h in out.tree1 <==> Reaches(s, (set k | k in out.components[0]), out.cut, h))
    && (forall h :: h in out.tree2 <==> Reaches(s, (set k | k in out.components[1]), out.cut, h))
    && s2 == GreedyRun(GreedyRun(s, out.tree1, |out.tree1|).s, out.tree2, |out.tree2|).s
  }

  /**
   * What the third branch leaves, from `s` with node list `nodes` to `s2`:
   * the first triad `x`, `y`, `z` in list order and in neighbour order; the
   * colouring order starts with `z`, `y`, ends with `x`, repeats no node,
   * and past its first two holds exactly what `x` reaches avoiding `y` and
   * `z`; and `s2` is `s` greedily coloured along it.
   */
  ghost predicate ColouredAroundTriad(s: Snapshot, nodes: seq<Handle>, s2: Snapshot, out: Outcome)
    requires out.ByTriad?
  {
    && out.x in nodes && Triad(s, out.x, out.y, out.z)
    && FirstCentre(s, nodes, out.x) && FirstPairAt(s, out.x, out.y, out.z)
    && |out.tree| >= 3 && out.tree[0] == out.z && out.tree[1] == out.y && out.tree[|out.tree| - 1] == out.x
    && Distinct(out.tree)
    && (forall h :: h in out.tree[2..] <==> Reaches(s, LiveSet(s) - {out.y, out.z}, out.x, h))
    && s2 == GreedyRun(s, out.tree, |out.tree|).s
  }

  // ---------------------------------------------------------------------
  // The three branches

  /** Listed nodes lie inside the store. */
  lemma ListedInStore(s: Snapshot, hs: seq<Handle>)
    requires WellFormed(s) && forall h | h in hs :: h in s.nodes
    ensures forall h | h in hs :: h < |s.store|
  {
    WellFormedIsSymmetric(s);
  }

  /** Reversing a list and dropping its first two places drops the last two of the original. */
  lemma ReversedDropsEnds(p: seq<Handle>)
    requires |p| >= 2
    ensures forall h :: h in Reversed(p)[2..] <==> h in p[..|p| - 2]
  {
    var r := Reversed(p);
    forall h | h in p[..|p| - 2]
      ensures h in r[2..]
    {
      var i :| 0 <= i < |p| - 2 && p[i] == h;
      assert r[2..][|p| - 3 - i] == h;
    }
  }

  /** The two ends of a triad are live nodes other than its centre. */
  lemma TriadEndsLive(s: Snapshot, x: Handle, y: Handle, z: Handle)
    requires WellFormed(s) && x in s.nodes && Triad(s, x, y, z)
    ensures y in s.nodes && z in s.nodes && x != y && x != z
  {
    WellFormedIsSymmetric(s);
  }

  /** The list the third branch colours holds live nodes only. */
  lemma TriadTreeLive(s: Snapshot, x: Handle, y: Handle, z: Handle, tree: seq<Handle>)
    requires x in s.nodes && y in s.nodes && z in s.nodes
    requires |tree| >= 2 && tree[0] == z && tree[1] == y
    requires forall h :: h in tree[2..] <==> Reaches(s, LiveSet(s) - {y, z}, x, h)
    ensures forall h | h in tree :: h in s.nodes
  {
    forall h | h in tree
      ensures h in s.nodes
    {
      if h != z && h != y && h != x {
        var i :| 0 <= i < |tree| && tree[i] == h;
        assert tree[2..][i - 2] == h;
        ReachKeep(s, LiveSet(s) - {y, z}, x, h);
      }
    }
  }

  /**
   * The first branch: the BFS order from `start` (the node of least
   * degree), reversed, coloured greedily. It lists exactly the component of
   * `start` and ends with `start`.
   */
  method DegreeBranch(g: Graph, start: Handle) returns (tree: seq<Handle>)
    requires g.Valid() && start in g.nodeList
    modifies g
    ensures g.Valid() && g.Snap() == GreedyRun(old(g.Snap()), tree, |tree|).s
    ensures |tree| > 0 && tree[|tree| - 1] == start && Distinct(tree)
    ensures forall h :: h in tree <==> Reaches(old(g.Snap()), LiveSet(old(g.Snap())), start, h)
    ensures AllUncoloured(old(g.Snap())) ==> ProperSoFar(g.Snap())
  {
    ghost var s := g.Snap();
    var order := BfsSpanningTree(g, start);
    tree := Reversed(order);
    ReversedMembers(order);
    GreedyColoring(g, tree);
    if AllUncoloured(s) {
      ProperFromBlank(s, tree);
    }
  }

  /**
   * The orders of the second branch: the BFS orders of the components
   * `c1` and `c2` from `cut`, each reversed so that it ends with `cut`.
   */
  method CutTrees(g: Graph, c1: seq<Handle>, c2: seq<Handle>, cut: Handle)
    returns (tree1: seq<Handle>, tree2: seq<Handle>)
    requires g.Valid() && cut in g.nodeList
    ensures |tree1| > 0 && tree1[|tree1| - 1] == cut && |tree2| > 0 && tree2[|tree2| - 1] == cut
    ensures forall h | h in tree1 :: h in g.nodeList
    ensures forall h | h in tree2 :: h in g.nodeList
    ensures forall h :: h in tree1 <==> Reaches(g.Snap(), (set k | k in c1), cut, h)
    ensures forall h :: h in tree2 <==> Reaches(g.Snap(), (set k | k in c2), cut, h)
  {
    var order1 := ComponentSpanningTree(g, c1, cut);
    var order2 := ComponentSpanningTree(g, c2, cut);
    tree1, tree2 := Reversed(order1), Reversed(order2);
    ReversedMembers(order1);
    ReversedMembers(order2);
  }

  /**
   * The colouring of the second branch: `tree1` and then `tree2` coloured
   * greedily, then `combine_coloring`, which leaves the colours as they are.
   */
  method ColourTwo(g: Graph, tree1: seq<Handle>, tree2: seq<Handle>, cut: Handle)
    requires g.Valid() && |tree1| > 0 && |tree2| > 0
    requires forall h | h in tree1 :: h in g.nodeList
    requires forall h | h in tree2 :: h in g.nodeList
    modifies g
    ensures g.Valid()
    ensures g.Snap() == GreedyRun(GreedyRun(old(g.Snap()), tree1, |tree1|).s, tree2, |tree2|).s
  {
    ghost var s := g.Snap();
    ListedInStore(s, tree1);
    ListedInStore(s, tree2);
    GreedyColoring(g, tree1);
    GreedyRecolours(s, tree1, |tree1|);
    ghost var s1 := g.Snap();
    GreedyColoring(g, tree2);
    GreedyRecolours(s1, tree2, |tree2|);
    assert tree2[0] in tree2;
    CombineColoring(g, tree1, tree2, cut);
  }

  /** The colouring half of the second branch, on the components `c1` and `c2` around `cut`. */
  method ColourAroundCut(g: Graph, c1: seq<Handle>, c2: seq<Handle>, cut: Handle)
    returns (tree1: seq<Handle>, tree2: seq<Handle>)
    requires g.Valid() && cut in g.nodeList
    modifies g
    ensures g.Valid()
    ensures |tree1| > 0 && tree1[|tree1| - 1] == cut && |tree2| > 0 && tree2[|tree2| - 1] == cut
    ensures forall h :: h in tree1 <==> Reaches(old(g.Snap()), (set k | k in c1), cut, h)
    ensures forall h :: h in tree2 <==> Reaches(old(g.Snap()), (set k | k in c2), cut, h)
    ensures g.Snap() == GreedyRun(GreedyRun(old(g.Snap()), tree1, |tree1|).s, tree2, |tree2|).s
  {
    tree1, tree2 := CutTrees(g, c1, c2, cut);
    ColourTwo(g, tree1, tree2, cut);
  }

  /**
   * The second branch at the cut vertex `cut`: the components of the graph
   * around it, and when there are at least two, the colouring around `cut`
   * of the first two.
   */
  method CutBranch(g: Graph, cut: Handle) returns (out: Outcome)
    requires g.Valid() && cut in g.nodeList
    modifies g
    ensures g.Valid() && (out.ByCutVertex? || out.FewComponents?) && out.cut == cut
    ensures out.FewComponents? ==> g.Snap() == old(g.Snap())
    ensures out.ByCutVertex? ==> ColouredAroundCut(old(g.Snap()), g.Snap(), out)
  {
    ghost var s := g.Snap();
    var components := ConnectedComponents(g, cut);
    assert g.Snap() == s;
    if |components| < 2 {
      return FewComponents(cut);
    }
    assert Component(s, cut, components[0]) && Component(s, cut, components[1]);
    var tree1, tree2 := ColourAroundCut(g, components[0], components[1], cut);
    out := ByCutVertex(cut, components, tree1, tree2);
  }

  /**
   * The order of the third branch at the triad `x`, `y`, `z`: the BFS
   * order from `x` that avoids `y` and `z`, followed by `y` and `z`,
   * reversed, so that `z` comes first and `y` second.
   */
  method TriadTree(g: Graph, x: Handle, y: Handle, z: Handle) returns (tree: seq<Handle>)
    requires g.Valid() && x in g.nodeList && Triad(g.Snap(), x, y, z)
    ensures |tree| >= 3 && tree[0] == z && tree[1] == y && tree[|tree| - 1] == x && Distinct(tree)
    ensures forall h :: h in tree[2..] <==> Reaches(g.Snap(), LiveSet(g.Snap()) - {y, z}, x, h)
    ensures forall h | h in tree :: h in g.nodeList
  {
    TriadEndsLive(g.Snap(), x, y, z);
    var order := TriadBfs(g, x, y, z);
    tree := Reversed(order);
    ReversedMembers(order);
    ReversedDropsEnds(order);
    TriadTreeLive(g.Snap(), x, y, z, tree);
  }

  /**
   * The colouring half of the third branch at the triad `x`, `y`, `z`.
   * On a graph without colours `y` and `z` both end with colour 0.
   */
  method ColourAroundTriad(g: Graph, x: Handle, y: Handle, z: Handle) returns (tree: seq<Handle>)
    requires g.Valid() && x in g.nodeList && Triad(g.Snap(), x, y, z)
    modifies g
    ensures g.Valid() && g.Snap() == GreedyRun(old(g.Snap()), tree, |tree|).s
    ensures |tree| >= 3 && tree[0] == z && tree[1] == y && tree[|tree| - 1] == x && Distinct(tree)
    ensures forall h :: h in tree[2..] <==> Reaches(old(g.Snap()), LiveSet(old(g.Snap())) - {y, z}, x, h)
    ensures AllUncoloured(old(g.Snap())) ==>
              && ProperSoFar(g.Snap())
              && ColourOf(g.Snap(), y) == 0 && ColourOf(g.Snap(), z) == 0
  {
    ghost var s := g.Snap();
    tree := TriadTree(g, x, y, z);
    GreedyColoring(g, tree);
    if AllUncoloured(s) {
      TriadEndsLive(s, x, y, z);
      ProperFromBlank(s, tree);
      TriadEndsShareColour(s, y, z, tree);
    }
  }

  /**
   * The third branch: the first triad `find_triad` reports, and the
   * colouring around it; `NoTriad` when there is none.
   */
  method TriadBranch(g: Graph) returns (out: Outcome)
    requires g.Valid()
    modifies g
    ensures g.Valid() && (out.ByTriad? || out.NoTriad?)
    ensures out.NoTriad? ==> g.Snap() == old(g.Snap()) && forall x | x in old(g.nodeList) :: NoTriadAt(old(g.Snap()), x)
    ensures out.ByTriad? ==> ColouredAroundTriad(old(g.Snap()), old(g.nodeList), g.Snap(), out)
    ensures out.ByTriad? && AllUncoloured(old(g.Snap())) ==>
              && ProperSoFar(g.Snap())
              && ColourOf(g.Snap(), out.y) == 0 && ColourOf(g.Snap(), out.z) == 0
  {
    var triad := FindTriad(g);
    if triad.None? {
      return NoTriad;
    }
    var (x, y, z) := triad.value;
    var tree := ColourAroundTriad(g, x, y, z);
    out := ByTriad(x, y, z, tree);
  }

  /**
   * `brooks_algorithm` past the degree test: the cut vertex search, then the
   * second branch at the first flagged node, or the third branch when no
   * node is flagged.
   */
  method RegularBranch(g: Graph) returns (out: Outcome, d: Dfs, ghost trace: Trace)
    requires g.Valid()
    modifies g
    ensures g.Valid() && Recoloured(old(g.Snap()), g.Snap())
    ensures Searched(old(g.Snap()), d, trace)
    ensures out.ByCutVertex? || out.FewComponents? || out.ByTriad? || out.NoTriad?
    ensures (out.ByCutVertex? || out.FewComponents?) <==> FirstFlagged(old(g.nodeList), d.art).Some?
    ensures out.ByCutVertex? || out.FewComponents? ==> FirstFlagged(old(g.nodeList), d.art) == Some(out.cut)
    ensures out.FewComponents? || out.NoTriad? ==> g.Snap() == old(g.Snap())
    ensures out.ByCutVertex? ==> ColouredAroundCut(old(g.Snap()), g.Snap(), out)
    ensures out.ByTriad? ==> ColouredAroundTriad(old(g.Snap()), old(g.nodeList), g.Snap(), out)
    ensures out.NoTriad? ==> forall x | x in old(g.nodeList) :: NoTriadAt(old(g.Snap()), x)
    ensures out.ByTriad? && AllUncoloured(old(g.Snap())) ==>
              && ProperSoFar(g.Snap())
              && ColourOf(g.Snap(), out.y) == 0 && ColourOf(g.Snap(), out.z) == 0
  {
    ghost var s := g.Snap();
    var cut;
    cut, d, trace := TarjanCutVertex(g);
    if cut.Some? {
      out := CutBranch(g, cut.value);
      if out.ByCutVertex? {
        GreedyRecolours(s, out.tree1, |out.tree1|);
        ghost var s1 := GreedyRun(s, out.tree1, |out.tree1|).s;
        GreedyRecolours(s1, out.tree2, |out.tree2|);
        RecolouredTrans(s, s1, g.Snap());
      }
      return;
    }
    out := TriadBranch(g);
    if out.ByTriad? {
      GreedyRecolours(s, out.tree, |out.tree|);
    }
  }

  /**
   * `brooks_algorithm`: colours change and nothing else. Without nodes it
   * fails; when the degrees differ it takes the first branch from the first
   * node of least degree; otherwise, when the cut vertex search flags a
   * node, the second branch at the first flagged node; otherwise the third
   * branch. Each failure of the Python code leaves the graph as it was.
   * `search` is the state the cut vertex search ends in, when it runs.
   */
  method BrooksAlgorithm(g: Graph) returns (out: Outcome, ghost search: Option<Dfs>, ghost trace: Trace)
    requires g.Valid()
    modifies g
    ensures g.Valid() && Recoloured(old(g.Snap()), g.Snap())
    ensures out.NoNodes? <==> old(g.nodeList) == []
    ensures out.ByDegree? <==> old(g.nodeList) != [] && !Regular(old(g.Snap()))
    ensures search.Some? <==> old(g.nodeList) != [] && Regular(old(g.Snap()))
    ensures search.Some? ==> Searched(old(g.Snap()), search.value, trace)
    ensures search.Some? ==>
              ((out.ByCutVertex? || out.FewComponents?) <==> FirstFlagged(old(g.nodeList), search.value.art).Some?)
    ensures out.ByCutVertex? || out.FewComponents? ==> FirstFlagged(old(g.nodeList), search.value.art) == Some(out.cut)
    ensures out.NoNodes? || out.FewComponents? || out.NoTriad? ==> g.Snap() == old(g.Snap())
    ensures out.ByDegree? ==>
              && |out.tree| > 0 && out.tree[|out.tree| - 1] == MinNode(old(g.Snap()))
              && g.Snap() == GreedyRun(old(g.Snap()), out.tree, |out.tree|).s
              && forall h :: h in out.tree <==> Reaches(old(g.Snap()), LiveSet(old(g.Snap())), MinNode(old(g.Snap())), h)
    ensures out.ByCutVertex? || out.FewComponents? ==> out.cut in old(g.nodeList)
    ensures out.ByCutVertex? ==> ColouredAroundCut(old(g.Snap()), g.Snap(), out)
    ensures out.ByTriad? ==> ColouredAroundTriad(old(g.Snap()), old(g.nodeList), g.Snap(), out)
    ensures out.NoTriad? ==> forall x | x in old(g.nodeList) :: NoTriadAt(old(g.Snap()), x)
    ensures (out.ByDegree? || out.ByTriad?) && AllUncoloured(old(g.Snap())) ==> ProperSoFar(g.Snap())
    ensures out.ByTriad? && AllUncoloured(old(g.Snap())) ==>
              ColourOf(g.Snap(), out.y) == 0 && ColourOf(g.Snap(), out.z) == 0
  {
    ghost var s := g.Snap();
    search, trace := None, Trace([], {}, map[]);
    var degrees := MaxMinDegree(g);
    if degrees.None? {
      return NoNodes, search, trace;
    }
    var (maxNode, minNode) := degrees.value;
    DegreesDifferIffIrregular(s);
    if Degree(g.Snap(), minNode) < Degree(g.Snap(), maxNode) {
      var tree := DegreeBranch(g, minNode);
      GreedyRecolours(s, tree, |tree|);
      return ByDegree(tree), search, trace;
    }
    var d;
    out, d, trace := RegularBranch(g);
    search := Some(d);
  }
}

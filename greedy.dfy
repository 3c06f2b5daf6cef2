/**
 * The colouring steps of GraphAlgorithms.py that `brooks_algorithm` uses:
 * `greedy_coloring` gives each still uncoloured node of a list, in turn, the
 * least colour of its palette `0..max_color_index` that no neighbour wears,
 * and widens the palette by one colour when a node finds it used up. The
 * palette starts as `{0}` on every call. `combine_coloring` follows it.
 */
module Greedy {

  import opened GraphNode
  import opened GraphStore

  /** The colours worn by the nodes of `hs`: each of theirs, and no more colours than nodes. */
  function ColoursOf(s: Snapshot, hs: seq<Handle>): (r: set<int>)
    ensures forall i | 0 <= i < |hs| :: ColourOf(s, hs[i]) in r
    ensures |r| <= |hs|
  {
    if hs == [] then {}
    else
      var front := hs[..|hs| - 1];
      assert forall i | 0 <= i < |front| :: front[i] == hs[i];
      ColoursOf(s, front) + {ColourOf(s, hs[|hs| - 1])}
  }

  /** Growing the prefix by one node adds that node's colour. */
  lemma ColoursOfSnoc(s: Snapshot, hs: seq<Handle>, j: nat)
    requires j < |hs|
    ensures ColoursOf(s, hs[..j + 1]) == ColoursOf(s, hs[..j]) + {ColourOf(s, hs[j])}
  {
    assert hs[..j + 1][..j] == hs[..j];
  }

  /** `set(range(top + 1))`: the colours 0 to `top`, `top + 1` of them. */
  function Palette(top: int): (r: set<int>)
    ensures forall c :: c in r <==> 0 <= c <= top
    ensures top >= -1 ==> |r| == top + 1
    decreases top
  {
    if top < 0 then {} else Palette(top - 1) + {top}
  }

  /** The least colour from `c` to `top` missing from `used`, or `top + 1` when there is none. */
  function LeastFree(used: set<int>, c: int, top: int): (r: int)
    requires c <= top + 1
    ensures c <= r <= top + 1
    ensures r <= top ==> r !in used
    ensures forall d | c <= d < r :: d in used
    decreases top + 1 - c
  {
    if c > top || c !in used then c else LeastFree(used, c + 1, top)
  }

  /** The colour an uncoloured `v` receives while the palette is `0..top`. */
  function Pick(s: Snapshot, v: Handle, top: int): int
    requires top >= 0
  {
    LeastFree(ColoursOf(s, Nbrs(s, v)), 0, top)
  }

  /** The graph with node `v` recoloured `c`. */
  function Recolour(s: Snapshot, v: Handle, c: int): Snapshot
  {
    if v < |s.store| then s.(store := s.store[v := s.store[v].(color := c)]) else s
  }

  /** The graph and `max_color_index` between two nodes of the list. */
  datatype Run = Run(s: Snapshot, top: int)

  /** One turn of the loop of `greedy_coloring`: coloured nodes are skipped. */
  function Step(r: Run, v: Handle): (q: Run)
    requires r.top >= 0
    ensures q.s.nodes == r.s.nodes && q.s.edges == r.s.edges && |q.s.store| == |r.s.store|
    ensures q.top >= r.top && (v < |r.s.store| ==> ColourOf(q.s, v) != Uncoloured)
  {
    if ColourOf(r.s, v) != Uncoloured then r
    else
      var c := Pick(r.s, v, r.top);
      Run(Recolour(r.s, v, c), if c > r.top then c else r.top)
  }

  /** `greedy_coloring` after the first `n` nodes of `order`. */
  function GreedyRun(s: Snapshot, order: seq<Handle>, n: nat): (r: Run)
    requires n <= |order|
    ensures r.top >= 0
    ensures r.s.nodes == s.nodes && r.s.edges == s.edges && |r.s.store| == |s.store|
  {
    if n == 0 then Run(s, 0) else Step(GreedyRun(s, order, n - 1), order[n - 1])
  }

  /** Only colours differ between `s` and `t`. */
  ghost predicate Recoloured(s: Snapshot, t: Snapshot)
  {
    && t.nodes == s.nodes && t.edges == s.edges && |t.store| == |s.store|
    && forall h | 0 <= h < |s.store| :: t.store[h] == s.store[h].(color := t.store[h].color)
  }

  /** Adjacent live nodes that are both coloured wear different colours. */
  ghost predicate ProperSoFar(s: Snapshot)
  {
    forall u, v | u in s.nodes && v in Nbrs(s, u) && ColourOf(s, u) != Uncoloured && ColourOf(s, v) != Uncoloured ::
      ColourOf(s, u) != ColourOf(s, v)
  }

  /** No live node wears a colour above `top`. */
  ghost predicate Bounded(s: Snapshot, top: int)
  {
    forall u | u in s.nodes :: ColourOf(s, u) <= top
  }

  // ---------------------------------------------------------------------
  // The palette

  /**
   * The palette test of `greedy_coloring`: the free colours run out exactly
   * when `LeastFree` answers `top + 1`, and otherwise `LeastFree` is their
   * minimum, the colour `min(available_colors)` picks.
   */
  lemma LeastFreeIsMin(used: set<int>, top: int)
    requires top >= 0
    ensures var r := LeastFree(used, 0, top);
            && (Palette(top) - used == {} <==> r == top + 1)
            && (r <= top ==> r in Palette(top) - used && forall c | c in Palette(top) - used :: r <= c)
  {
    var r := LeastFree(used, 0, top);
    if r == top + 1 {
      forall c | c in Palette(top)
        ensures c in used
      {
        assert 0 <= c < r;
      }
    } else {
      assert r in Palette(top) - used;
    }
  }

  /** `LeastFree` from 0 never passes the number of colours in use. */
  lemma LeastFreeAtMostUsed(used: set<int>, top: int)
    requires top >= 0
    ensures LeastFree(used, 0, top) <= |used|
  {
    var r := LeastFree(used, 0, top);
    var below := Palette(r - 1);
    assert below <= used;
    assert |below| == r;
    SubsetCard(below, used);
  }

  lemma SubsetCard(a: set<int>, b: set<int>)
    requires a <= b
    ensures |a| <= |b|
  {
    assert b == a + (b - a);
  }

  /** A node is never given a colour above its degree. */
  lemma PickAtMostDegree(s: Snapshot, v: Handle, top: int)
    requires top >= 0
    ensures 0 <= Pick(s, v, top) <= |Nbrs(s, v)|
  {
    LeastFreeAtMostUsed(ColoursOf(s, Nbrs(s, v)), top);
  }

  // ---------------------------------------------------------------------
  // Properties of a run

  lemma RecolouredTrans(s: Snapshot, t: Snapshot, u: Snapshot)
    requires Recoloured(s, t) && Recoloured(t, u)
    ensures Recoloured(s, u)
  {
  }

  /** Recolouring keeps the adjacency, hence its symmetry. */
  lemma RecolouredKeepsSymmetric(s: Snapshot, t: Snapshot)
    requires Recoloured(s, t) && Symmetric(s)
    ensures Symmetric(t)
  {
    assert forall h :: Nbrs(t, h) == Nbrs(s, h);
  }

  /** A step changes at most the colour of its own node. */
  lemma StepRecolours(r: Run, v: Handle)
    requires r.top >= 0
    ensures Recoloured(r.s, Step(r, v).s)
    ensures forall h | h != v :: ColourOf(Step(r, v).s, h) == ColourOf(r.s, h)
    ensures Step(r, v).top >= r.top
  {
  }

  /** A node that wears a colour keeps it through a step. */
  lemma StepKeepsColoured(r: Run, v: Handle, h: Handle)
    requires r.top >= 0 && ColourOf(r.s, h) != Uncoloured
    ensures ColourOf(Step(r, v).s, h) == ColourOf(r.s, h)
  {
    if h != v {
      StepRecolours(r, v);
    }
  }

  /** A node coloured after `k` steps of a run keeps that colour to the end. */
  lemma {:induction false} ColouredStays(s: Snapshot, order: seq<Handle>, k: nat, n: nat, h: Handle)
    requires k <= n <= |order| && ColourOf(GreedyRun(s, order, k).s, h) != Uncoloured
    ensures ColourOf(GreedyRun(s, order, n).s, h) == ColourOf(GreedyRun(s, order, k).s, h)
  {
    if n > k {
      ColouredStays(s, order, k, n - 1, h);
      var r := GreedyRun(s, order, n - 1);
      StepKeepsColoured(r, order[n - 1], h);
    }
  }

  /** A run changes nothing but colours. */
  lemma {:induction false} GreedyRecolours(s: Snapshot, order: seq<Handle>, n: nat)
    requires n <= |order|
    ensures Recoloured(s, GreedyRun(s, order, n).s)
  {
    if n > 0 {
      GreedyRecolours(s, order, n - 1);
      var r := GreedyRun(s, order, n - 1);
      StepRecolours(r, order[n - 1]);
      RecolouredTrans(s, r.s, GreedyRun(s, order, n).s);
    }
  }

  /** Only colours change, so the graph invariant survives a run. */
  lemma GreedyKeepsWellFormed(s: Snapshot, order: seq<Handle>)
    requires WellFormed(s)
    ensures WellFormed(GreedyRun(s, order, |order|).s)
  {
    GreedyRecolours(s, order, |order|);
    RelabelKeepsWellFormed(s, GreedyRun(s, order, |order|).s);
  }

  /**
   * Nodes that were coloured before the call, and nodes not in the list,
   * keep their colour: only uncoloured listed nodes are coloured.
   */
  lemma {:induction false} GreedyKeepsColours(s: Snapshot, order: seq<Handle>, n: nat, h: Handle)
    requires n <= |order|
    requires ColourOf(s, h) != Uncoloured || h !in order[..n]
    ensures ColourOf(GreedyRun(s, order, n).s, h) == ColourOf(s, h)
  {
    if n > 0 {
      assert h !in order[..n] ==> h !in order[..n - 1] && order[n - 1] != h by {
        assert order[..n] == order[..n - 1] + [order[n - 1]];
      }
      GreedyKeepsColours(s, order, n - 1, h);
      StepRecolours(GreedyRun(s, order, n - 1), order[n - 1]);
    }
  }

  /** Every listed node ends coloured. */
  lemma {:induction false} GreedyColoursListed(s: Snapshot, order: seq<Handle>, n: nat)
    requires n <= |order| && forall h | h in order :: h < |s.store|
    ensures forall h | h in order[..n] :: ColourOf(GreedyRun(s, order, n).s, h) != Uncoloured
  {
    if n > 0 {
      GreedyColoursListed(s, order, n - 1);
      var r := GreedyRun(s, order, n - 1);
      var v := order[n - 1];
      StepRecolours(r, v);
      GreedyRecolours(s, order, n - 1);
      if ColourOf(r.s, v) == Uncoloured {
        assert v in order;
        assert v < |r.s.store|;
        assert ColourOf(Step(r, v).s, v) == Pick(r.s, v, r.top);
      }
      assert order[..n] == order[..n - 1] + [v];
    }
  }

  /**
   * A node coloured by the run receives a colour between 0 and its degree,
   * so a run never uses more colours than the maximum degree plus one.
   */
  lemma {:induction false} GreedyWithinDegree(s: Snapshot, order: seq<Handle>, n: nat, h: Handle)
    requires n <= |order| && h in order[..n] && h < |s.store| && ColourOf(s, h) == Uncoloured
    ensures 0 <= ColourOf(GreedyRun(s, order, n).s, h) <= |Nbrs(s, h)|
  {
    var r := GreedyRun(s, order, n - 1);
    var v := order[n - 1];
    assert order[..n] == order[..n - 1] + [v];
    StepRecolours(r, v);
    GreedyRecolours(s, order, n - 1);
    assert Nbrs(r.s, h) == Nbrs(s, h);
    if h in order[..n - 1] {
      GreedyWithinDegree(s, order, n - 1, h);
      if v == h {
        assert ColourOf(r.s, h) != Uncoloured;
      }
    } else {
      GreedyKeepsColours(s, order, n - 1, h);
      PickAtMostDegree(r.s, h, r.top);
    }
  }

  /** One step keeps a proper partial colouring within the palette. */
  lemma StepProper(r: Run, v: Handle)
    requires r.top >= 0 && Symmetric(r.s) && v in r.s.nodes
    requires ProperSoFar(r.s) && Bounded(r.s, r.top)
    ensures ProperSoFar(Step(r, v).s) && Bounded(Step(r, v).s, Step(r, v).top)
  {
    if ColourOf(r.s, v) == Uncoloured {
      var s, t := r.s, Step(r, v).s;
      var c := Pick(s, v, r.top);
      var used := ColoursOf(s, Nbrs(s, v));
      assert ColourOf(t, v) == c;
      assert forall h | h != v :: ColourOf(t, h) == ColourOf(s, h);
      assert forall h :: Nbrs(t, h) == Nbrs(s, h);
      forall k | k in Nbrs(s, v) && ColourOf(s, k) != Uncoloured
        ensures ColourOf(s, k) != c
      {
        var i :| 0 <= i < |Nbrs(s, v)| && Nbrs(s, v)[i] == k;
        assert ColourOf(s, k) in used;
        assert k in s.nodes;
      }
    }
  }

  /** What a run keeps: only colours changed, properly, within the palette. */
  ghost predicate ProperRun(s: Snapshot, r: Run)
  {
    Recoloured(s, r.s) && ProperSoFar(r.s) && Bounded(r.s, r.top)
  }

  lemma StepKeepsProper(s: Snapshot, r: Run, v: Handle)
    requires r.top >= 0 && Symmetric(s) && v in s.nodes && ProperRun(s, r)
    ensures ProperRun(s, Step(r, v))
  {
    RecolouredKeepsSymmetric(s, r.s);
    StepProper(r, v);
    StepRecolours(r, v);
    RecolouredTrans(s, r.s, Step(r, v).s);
  }

  /** The `n`-th step of a run keeps it proper when the first `n - 1` did. */
  lemma RunKeepsProper(s: Snapshot, order: seq<Handle>, n: nat)
    requires 0 < n <= |order| && Symmetric(s) && order[n - 1] in s.nodes
    requires ProperRun(s, GreedyRun(s, order, n - 1))
    ensures ProperRun(s, GreedyRun(s, order, n))
  {
    StepKeepsProper(s, GreedyRun(s, order, n - 1), order[n - 1]);
  }

  /**
   * Started from a proper partial colouring whose colours are at most 0
   * (every node uncoloured, say), a run over live nodes keeps it proper.
   */
  lemma {:induction false} GreedyProper(s: Snapshot, order: seq<Handle>, n: nat)
    requires n <= |order| && Symmetric(s) && forall h | h in order :: h in s.nodes
    requires ProperSoFar(s) && Bounded(s, 0)
    ensures ProperRun(s, GreedyRun(s, order, n))
  {
    if n > 0 {
      GreedyProper(s, order, n - 1);
      assert order[n - 1] in order;
      RunKeepsProper(s, order, n);
    }
  }

  /**
   * On a graph with no node coloured, a list holding every node yields a
   * proper colouring of the whole graph.
   */
  lemma GreedyColoursGraph(s: Snapshot, order: seq<Handle>)
    requires Symmetric(s) && forall h | h in s.nodes :: ColourOf(s, h) == Uncoloured
    requires forall h :: h in order <==> h in s.nodes
    ensures var t := GreedyRun(s, order, |order|).s;
            && ProperSoFar(t)
            && forall h | h in t.nodes :: ColourOf(t, h) != Uncoloured
  {
    GreedyProper(s, order, |order|);
    GreedyColoursListed(s, order, |order|);
    GreedyRecolours(s, order, |order|);
    assert order[..|order|] == order;
  }

  /**
   * Because the palette restarts at `{0}`, a widened palette can hand out
   * the colour of an already coloured neighbour: on the path w - v - c with
   * only c coloured (colour 1), the list [w, v] colours w with 0 and v with 1.
   */
  lemma PaletteRestartClash()
    ensures var s := Snapshot([Node(1, 0, 0, DefaultRadius, Uncoloured, NoGroup, [1]),
                               Node(2, 0, 0, DefaultRadius, Uncoloured, NoGroup, [0, 2]),
                               Node(3, 0, 0, DefaultRadius, 1, NoGroup, [1])],
                              [0, 1, 2], []);
            var t := GreedyRun(s, [0, 1], 2).s;
            ColourOf(t, 1) == ColourOf(t, 2) && 2 in Nbrs(t, 1)
  {
    var s := Snapshot([Node(1, 0, 0, DefaultRadius, Uncoloured, NoGroup, [1]),
                       Node(2, 0, 0, DefaultRadius, Uncoloured, NoGroup, [0, 2]),
                       Node(3, 0, 0, DefaultRadius, 1, NoGroup, [1])],
                      [0, 1, 2], []);
    assert GreedyRun(s, [0, 1], 0) == Run(s, 0);
    var r1 := GreedyRun(s, [0, 1], 1);
    assert r1 == Step(Run(s, 0), 0);
    assert ColoursOf(s, [1]) == {Uncoloured} by {
      assert ColourOf(s, 1) == Uncoloured;
    }
    assert Pick(s, 0, 0) == 0;
    assert r1.top == 0 && ColourOf(r1.s, 0) == 0;
    assert ColoursOf(r1.s, [0, 2]) == {0, 1} by {
      assert ColourOf(r1.s, 0) == 0 && ColourOf(r1.s, 2) == 1;
    }
    assert Nbrs(r1.s, 1) == [0, 2];
    assert LeastFree({0, 1}, 0, 0) == 1;
    assert Pick(r1.s, 1, 0) == 1;
  }

  // ---------------------------------------------------------------------
  // The methods

  /**
   * The loop body of `greedy_coloring` agrees with `Step`: `top + 1` when the
   * free colours ran out, their minimum otherwise.
   */
  lemma StepByPalette(r: Run, v: Handle, available: set<int>, c: int)
    requires r.top >= 0 && v < |r.s.store| && ColourOf(r.s, v) == Uncoloured
    requires available == Palette(r.top) - ColoursOf(r.s, Nbrs(r.s, v))
    requires available == {} ==> c == r.top + 1
    requires available != {} ==> c in available && forall x | x in available :: c <= x
    ensures Step(r, v) == Run(Recolour(r.s, v, c), if available == {} then r.top + 1 else r.top)
  {
    LeastFreeIsMin(ColoursOf(r.s, Nbrs(r.s, v)), r.top);
  }

  /**
   * The inner loop of `greedy_coloring`: start from the whole palette and
   * take away each colour a neighbour of `v` wears.
   */
  method FreeColours(g: Graph, v: Handle, top: int) returns (available: set<int>)
    requires v < |g.store| && forall k | k in g.store[v].neighbors :: k < |g.store|
    ensures available == Palette(top) - ColoursOf(g.Snap(), Nbrs(g.Snap(), v))
  {
    ghost var s := g.Snap();
    var store := g.store;
    var nbrs := store[v].neighbors;
    available := Palette(top);
    for j := 0 to |nbrs|
      invariant available == Palette(top) - ColoursOf(s, nbrs[..j])
    {
      assert nbrs[j] in nbrs;
      var c := store[nbrs[j]].color;
      ghost var before := available;
      if c in available {
        available := available - {c};
      }
      ColoursOfSnoc(s, nbrs, j);
      TakeAway(Palette(top), ColoursOf(s, nbrs[..j]), c, before, available);
    }
    assert nbrs[..|nbrs|] == nbrs;
  }

  lemma TakeAway(p: set<int>, used: set<int>, c: int, before: set<int>, after: set<int>)
    requires before == p - used
    requires after == if c in before then before - {c} else before
    ensures after == p - (used + {c})
  {
  }

  /** `min(available_colors)` of a non-empty set of colours from `0..top`. */
  method Least(available: set<int>, top: int) returns (m: int)
    requires available != {} && forall c | c in available :: 0 <= c <= top
    ensures m in available && forall c | c in available :: m <= c
  {
    m := 0;
    while m !in available
      invariant forall c | c in available :: m <= c
      decreases top - m
    {
      ghost var c :| c in available;
      assert m < c <= top;
      m := m + 1;
    }
  }

  /** One turn of the loop of `greedy_coloring`, on the graph itself. */
  method ColourNode(g: Graph, v: Handle, top: int) returns (top': int)
    requires g.Valid() && v in g.nodeList && top >= 0
    modifies g
    ensures Run(g.Snap(), top') == Step(old(Run(g.Snap(), top)), v)
    ensures g.Valid() && g.nodeList == old(g.nodeList)
  {
    ghost var r := Run(g.Snap(), top);
    top' := top;
    if g.store[v].color == Uncoloured {
      assert forall k | k in g.store[v].neighbors :: k in g.nodeList;
      var available := FreeColours(g, v, top);
      if available == {} {
        StepByPalette(r, v, available, top + 1);
        top' := top + 1;
        g.SetColor(v, top');
      } else {
        var least := Least(available, top);
        StepByPalette(r, v, available, least);
        g.SetColor(v, least);
      }
    }
  }

  /**
   * `greedy_coloring`: the graph ends as `GreedyRun` describes, a change of
   * colours only.
   */
  method GreedyColoring(g: Graph, order: seq<Handle>)
    requires g.Valid() && forall v | v in order :: v in g.nodeList
    modifies g
    ensures g.Snap() == GreedyRun(old(g.Snap()), order, |order|).s
    ensures g.Valid()
  {
    ghost var s0 := g.Snap();
    var maxColorIndex := 0;
    for i := 0 to |order|
      invariant Run(g.Snap(), maxColorIndex) == GreedyRun(s0, order, i)
      invariant g.Valid() && g.nodeList == old(g.nodeList)
    {
      assert order[i] in order;
      maxColorIndex := ColourNode(g, order[i], maxColorIndex);
    }
  }

  /**
   * `combine_coloring`. When the first nodes of the two lists differ in
   * colour, each node of the first list that wears the colour of the head
   * of the second list and neighbours it swaps colours with it; the two
   * colours being equal, the swap changes nothing, so the graph is left as
   * it was. The cut vertex argument is not used.
   */
  method CombineColoring(g: Graph, tree1: seq<Handle>, tree2: seq<Handle>, cut: Handle)
    requires |tree1| > 0 && |tree2| > 0 && tree2[0] < |g.store|
    requires forall h | h in tree1 :: h < |g.store|
    modifies g
    ensures g.store == old(g.store) && g.nodeList == old(g.nodeList) && g.edgeList == old(g.edgeList)
  {
    assert tree1[0] in tree1;
    if g.store[tree1[0]].color == g.store[tree2[0]].color {
      return;
    }
    for i := 0 to |tree1|
      invariant g.store == old(g.store) && g.nodeList == old(g.nodeList) && g.edgeList == old(g.edgeList)
    {
      var node := tree1[i];
      var root := tree2[0];
      assert node in tree1;
      if g.store[node].color == g.store[root].color && node in g.store[root].neighbors {
        var rootColour, nodeColour := g.store[root].color, g.store[node].color;
        g.SetColor(node, rootColour);
        g.SetColor(root, nodeColour);
      }
    }
  }
}

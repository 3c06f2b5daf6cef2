/**
 * The matching part of GraphAlgorithms.py: `_direct_graph`, the augmenting
 * step of `hungarian_algorithm` and its main loop. A matching is a set of
 * edge positions (an edge object's identity is its place in the edge list).
 * Between searches the edges are oriented so that matched edges run from
 * group B to group A and the others from A to B; an augmenting path is then
 * a BFS path from a free A node to a free B node, and exchanging its
 * matched and unmatched edges (`path[::2]` are the unmatched ones) yields a
 * matching with one more edge.
 */
module Matching {

  import opened Wrappers
  import opened GraphNode
  import opened GraphEdge
  import opened GraphStore
  import opened Bipartite
  import opened AugmentingPaths

  // ---------------------------------------------------------------------
  // Matchings and orientations

  /** Every edge joins a node of group A and a node of group B. */
  ghost predicate Sided(s: Snapshot)
  {
    forall e | e in s.edges ::
      || (GroupOf(s, e.source) == A && GroupOf(s, e.dest) == B)
      || (GroupOf(s, e.source) == B && GroupOf(s, e.dest) == A)
  }

  /** Matched edges leave group B, unmatched edges leave group A. */
  ghost predicate Oriented(s: Snapshot, m: set<nat>)
  {
    forall i | 0 <= i < |s.edges| :: (i in m) <==> GroupOf(s, s.edges[i].source) == B
  }

  /** The two edges have no endpoint in common. */
  predicate ShareNoEnd(e: Edge, f: Edge)
  {
    e.source != f.source && e.source != f.dest && e.dest != f.source && e.dest != f.dest
  }

  /** Edge positions of the graph, no two of them sharing an endpoint. */
  ghost predicate IsMatching(s: Snapshot, m: set<nat>)
  {
    && (forall i | i in m :: i < |s.edges|)
    && (forall i, j | i in m && j in m && i != j :: ShareNoEnd(s.edges[i], s.edges[j]))
  }

  /** The nodes covered by the edges in `m` (`nodes_in_matching`). */
  ghost function Covered(s: Snapshot, m: set<nat>): set<Handle>
  {
    (set i | i in m && i < |s.edges| :: s.edges[i].source) + (set i | i in m && i < |s.edges| :: s.edges[i].dest)
  }

  /** The live nodes of group B (`group_b`). */
  ghost function GroupB(s: Snapshot): set<Handle>
  {
    set h | h in s.nodes && GroupOf(s, h) == B
  }

  /** The same edges, each possibly reversed. */
  ghost predicate Reoriented(s: Snapshot, t: Snapshot)
  {
    && t.store == s.store && t.nodes == s.nodes && |t.edges| == |s.edges|
    && forall i | 0 <= i < |s.edges| :: t.edges[i] == s.edges[i] || t.edges[i] == Swapped(s.edges[i])
  }

  /** The matching state kept between two augmentations. */
  ghost predicate MatchState(s: Snapshot, m: set<nat>, nim: set<Handle>)
  {
    Sided(s) && Oriented(s, m) && IsMatching(s, m) && nim == Covered(s, m)
  }

  /** No BFS path leads from a free node of group A to a free node of group B. */
  ghost predicate NothingToAugment(s: Snapshot, m: set<nat>)
  {
    forall h | h in s.nodes && GroupOf(s, h) == A && h !in Covered(s, m) :: NoAugmentingFrom(s, h, GroupB(s) - Covered(s, m))
  }

  function Elems(p: seq<nat>): set<nat>
  {
    set x | x in p
  }

  /** `path[::2]`: the entries at even positions. */
  function EveryOther(p: seq<nat>): (r: seq<nat>)
    ensures |r| == (|p| + 1) / 2
    ensures forall j | 0 <= j < |r| :: r[j] == p[2 * j]
  {
    if |p| <= 1 then p else [p[0]] + EveryOther(p[2..])
  }

  /** The matching after augmenting along `p`: its matched edges leave, its unmatched edges join. */
  function Augmented(m: set<nat>, p: seq<nat>): set<nat>
  {
    (m - Elems(p)) + Elems(EveryOther(p))
  }

  /** Every entry `path[::2]` keeps is an entry of the path. */
  lemma EveryOtherWithin(p: seq<nat>)
    ensures forall e | e in EveryOther(p) :: e in p
  {
    forall e | e in EveryOther(p)
      ensures e in p
    {
      var j :| 0 <= j < |EveryOther(p)| && EveryOther(p)[j] == e;
      assert p[2 * j] == e;
    }
  }

  /** Off the path the exchange keeps the matching; on it, only entries `path[::2]` keeps. */
  lemma AugmentedOffPath(m: set<nat>, p: seq<nat>)
    ensures forall e | e !in p :: e in Augmented(m, p) <==> e in m
    ensures forall e | e in Augmented(m, p) && e in p :: e in EveryOther(p)
  {
    EveryOtherWithin(p);
  }

  /** The exchange takes in every even-placed edge of the path. */
  lemma AugmentedEvens(m: set<nat>, p: seq<nat>)
    ensures forall j | 0 <= j < |p| && j % 2 == 0 :: p[j] in Augmented(m, p)
  {
    forall j | 0 <= j < |p| && j % 2 == 0
      ensures p[j] in Augmented(m, p)
    {
      assert EveryOther(p)[j / 2] == p[j];
    }
  }

  /**
   * The exchange along `p` keeps every edge off the path as it was, takes in
   * the path's even-placed edges, and keeps no other edge of the path.
   */
  lemma AugmentedEdges(m: set<nat>, p: seq<nat>)
    ensures forall e | e !in p :: e in Augmented(m, p) <==> e in m
    ensures forall j | 0 <= j < |p| && j % 2 == 0 :: p[j] in Augmented(m, p)
    ensures forall e | e in Augmented(m, p) && e in p :: e in EveryOther(p)
  {
    AugmentedOffPath(m, p);
    AugmentedEvens(m, p);
  }

  /** The way `_direct_graph(m)` leaves edge `i`. */
  function DirectEdge(s: Snapshot, m: set<nat>, i: nat): Edge
    requires i < |s.edges|
  {
    var e := s.edges[i];
    if (i in m && GroupOf(s, e.source) == A) || (i !in m && GroupOf(s, e.source) == B) then Swapped(e) else e
  }

  /** `t` is `s` after `_direct_graph(m)`. */
  ghost predicate DirectedFrom(s: Snapshot, t: Snapshot, m: set<nat>)
  {
    && t.store == s.store && t.nodes == s.nodes && |t.edges| == |s.edges|
    && forall i | 0 <= i < |s.edges| :: t.edges[i] == DirectEdge(s, m, i)
  }

  // ---------------------------------------------------------------------
  // Lemmas about ends and orientation

  lemma CoveredOfMember(s: Snapshot, m: set<nat>, i: nat)
    requires i in m && i < |s.edges|
    ensures s.edges[i].source in Covered(s, m) && s.edges[i].dest in Covered(s, m)
  {
  }

  /** Every covered node is an endpoint of an edge of `m`. */
  lemma CoveredWitness(s: Snapshot, m: set<nat>, x: Handle)
    requires x in Covered(s, m)
    ensures exists i | i in m && i < |s.edges| :: s.edges[i].source == x || s.edges[i].dest == x
  {
  }

  lemma CoveredUnion(s: Snapshot, m: set<nat>, n: set<nat>)
    ensures Covered(s, m + n) == Covered(s, m) + Covered(s, n)
  {
    forall x | x in Covered(s, m + n)
      ensures x in Covered(s, m) + Covered(s, n)
    {
      CoveredWitness(s, m + n, x);
      var i :| i in m + n && i < |s.edges| && (s.edges[i].source == x || s.edges[i].dest == x);
      if i in m {
        CoveredOfMember(s, m, i);
      } else {
        CoveredOfMember(s, n, i);
      }
    }
    forall x | x in Covered(s, m) + Covered(s, n)
      ensures x in Covered(s, m + n)
    {
      if x in Covered(s, m) {
        CoveredWitness(s, m, x);
        var i :| i in m && i < |s.edges| && (s.edges[i].source == x || s.edges[i].dest == x);
        CoveredOfMember(s, m + n, i);
      } else {
        CoveredWitness(s, n, x);
        var i :| i in n && i < |s.edges| && (s.edges[i].source == x || s.edges[i].dest == x);
        CoveredOfMember(s, m + n, i);
      }
    }
  }

  /** Adding one edge covers exactly its two endpoints more. */
  lemma CoveredInsert(s: Snapshot, m: set<nat>, e: nat)
    requires e < |s.edges|
    ensures Covered(s, m + {e}) == Covered(s, m) + {s.edges[e].source, s.edges[e].dest}
  {
    CoveredUnion(s, m, {e});
    assert Covered(s, {e}) == {s.edges[e].source, s.edges[e].dest} by {
      forall x | x in Covered(s, {e})
        ensures x == s.edges[e].source || x == s.edges[e].dest
      {
        CoveredWitness(s, {e}, x);
      }
      CoveredOfMember(s, {e}, e);
    }
  }

  /** Reversing edges changes neither which nodes an edge set covers nor whether it is a matching. */
  lemma ReorientedKeeps(s: Snapshot, t: Snapshot, m: set<nat>)
    requires Reoriented(s, t)
    ensures Covered(t, m) == Covered(s, m)
    ensures IsMatching(s, m) ==> IsMatching(t, m)
  {
    forall x | x in Covered(t, m)
      ensures x in Covered(s, m)
    {
      CoveredWitness(t, m, x);
      var i :| i in m && i < |t.edges| && (t.edges[i].source == x || t.edges[i].dest == x);
      CoveredOfMember(s, m, i);
    }
    forall x | x in Covered(s, m)
      ensures x in Covered(t, m)
    {
      CoveredWitness(s, m, x);
      var i :| i in m && i < |s.edges| && (s.edges[i].source == x || s.edges[i].dest == x);
      CoveredOfMember(t, m, i);
    }
  }

  /** Reversing edges leaves `group_b` as it was. */
  lemma GroupBKept(s: Snapshot, t: Snapshot)
    requires Reoriented(s, t)
    ensures GroupB(t) == GroupB(s)
  {
    assert forall h :: GroupOf(t, h) == GroupOf(s, h);
  }

  /** Reorientations compose. */
  lemma ReorientedTrans(s: Snapshot, t: Snapshot, u: Snapshot)
    requires Reoriented(s, t) && Reoriented(t, u)
    ensures Reoriented(s, u)
  {
    forall i | 0 <= i < |s.edges|
      ensures u.edges[i] == s.edges[i] || u.edges[i] == Swapped(s.edges[i])
    {
      SwapTwice(s.edges[i]);
    }
  }

  /**
   * `_direct_graph(m)` on a two-sided graph reverses only edges, keeps the
   * graph two-sided and orients it for `m`.
   */
  lemma DirectedIsOriented(s: Snapshot, t: Snapshot, m: set<nat>)
    requires Sided(s) && DirectedFrom(s, t, m)
    ensures Reoriented(s, t) && Sided(t) && Oriented(t, m)
  {
    forall e | e in t.edges
      ensures || (GroupOf(t, e.source) == A && GroupOf(t, e.dest) == B)
              || (GroupOf(t, e.source) == B && GroupOf(t, e.dest) == A)
    {
      var i :| 0 <= i < |t.edges| && t.edges[i] == e;
      assert s.edges[i] in s.edges;
    }
    forall i | 0 <= i < |t.edges|
      ensures (i in m) <==> GroupOf(t, t.edges[i].source) == B
    {
      assert s.edges[i] in s.edges;
    }
  }

  /** The groups `is_bipartite` assigns make every edge join A and B. */
  lemma TaggedIsSided(s: Snapshot)
    requires WellFormed(s)
    requires forall h | h in s.nodes :: GroupOf(s, h) == A || GroupOf(s, h) == B
    requires forall u, v | u in s.nodes && v in Nbrs(s, u) :: GroupOf(s, u) != GroupOf(s, v)
    ensures Sided(s)
  {
    forall e | e in s.edges
      ensures || (GroupOf(s, e.source) == A && GroupOf(s, e.dest) == B)
              || (GroupOf(s, e.source) == B && GroupOf(s, e.dest) == A)
    {
      var i :| 0 <= i < |s.edges| && s.edges[i] == e;
      EdgeEndsAreNeighbours(s, i);
    }
  }

  /** A set of edge positions has no more members than there are edges. */
  lemma {:induction false} BoundedCard(m: set<nat>, n: nat)
    requires forall i | i in m :: i < n
    ensures |m| <= n
  {
    if n == 0 {
      assert m == {};
    } else {
      BoundedCard(m - {n - 1}, n - 1);
    }
  }

  lemma {:induction false} DistinctCard(q: seq<nat>)
    requires forall i, j | 0 <= i < j < |q| :: q[i] != q[j]
    ensures |Elems(q)| == |q|
  {
    if q != [] {
      var r := q[..|q| - 1];
      DistinctCard(r);
      assert Elems(q) == Elems(r) + {q[|q| - 1]} by {
        assert q == r + [q[|q| - 1]];
      }
    }
  }

  // ---------------------------------------------------------------------
  // Augmenting paths

  /** Edge `p[i]` of a BFS path runs from the `i`-th node of its walk to the next. */
  lemma PathEdges(s: Snapshot, start: Handle, p: seq<nat>)
    requires StepPath(s, start, p)
    ensures forall i | 0 <= i < |p| ::
              && p[i] < |s.edges|
              && s.edges[p[i]].source == Walk(s, start, p)[i]
              && s.edges[p[i]].dest == Walk(s, start, p)[i + 1]
  {
    var w := Walk(s, start, p);
    forall i | 0 <= i < |p|
      ensures p[i] < |s.edges| && s.edges[p[i]].source == w[i] && s.edges[p[i]].dest == w[i + 1]
    {
      assert StepEdge(s, w[i], p[i]);
    }
  }

  lemma ParityStep(i: nat)
    requires i > 0
    ensures (i % 2 == 0) <==> ((i - 1) % 2 == 1)
    ensures (i % 2 == 1) <==> ((i - 1) % 2 == 0)
  {
  }

  lemma {:induction false} AlternatesUpTo(s: Snapshot, start: Handle, p: seq<nat>, i: nat)
    requires Sided(s) && StepPath(s, start, p) && GroupOf(s, start) == A && i <= |p|
    ensures GroupOf(s, Walk(s, start, p)[i]) == if i % 2 == 0 then A else B
    decreases i
  {
    if i > 0 {
      AlternatesUpTo(s, start, p, i - 1);
      PathEdges(s, start, p);
      var w := Walk(s, start, p);
      var e := s.edges[p[i - 1]];
      assert e in s.edges && e.source == w[i - 1] && e.dest == w[i];
      ParityStep(i);
      if (i - 1) % 2 == 0 {
        assert GroupOf(s, w[i - 1]) == A;
      } else {
        assert GroupOf(s, w[i - 1]) == B;
      }
    }
  }

  /**
   * On a two-sided graph oriented for `m`, a BFS path from an A node
   * alternates: its nodes lie in A, B, A, ... and its edges are unmatched,
   * matched, unmatched, ...
   */
  lemma Alternates(s: Snapshot, m: set<nat>, start: Handle, p: seq<nat>)
    requires Sided(s) && Oriented(s, m) && StepPath(s, start, p) && GroupOf(s, start) == A
    ensures forall i | 0 <= i <= |p| :: GroupOf(s, Walk(s, start, p)[i]) == if i % 2 == 0 then A else B
    ensures forall i | 0 <= i < |p| :: (p[i] in m) <==> i % 2 == 1
  {
    PathEdges(s, start, p);
    forall i | 0 <= i <= |p|
      ensures GroupOf(s, Walk(s, start, p)[i]) == if i % 2 == 0 then A else B
    {
      AlternatesUpTo(s, start, p, i);
    }
  }

  /** A BFS path from a free A node to a free B node over a matching oriented for it. */
  ghost predicate Augmenting(s: Snapshot, m: set<nat>, start: Handle, p: seq<nat>)
  {
    && IsMatching(s, m) && Sided(s) && Oriented(s, m)
    && StepPath(s, start, p) && DistinctWalk(s, start, p)
    && GroupOf(s, start) == A && start !in Covered(s, m)
    && GroupOf(s, EndOf(s, start, p)) == B && EndOf(s, start, p) !in Covered(s, m)
  }

  /** An augmenting path has odd length, its odd edges are the matched ones, and no edge repeats. */
  lemma AugmentingShape(s: Snapshot, m: set<nat>, start: Handle, p: seq<nat>)
    requires Augmenting(s, m, start, p)
    ensures |p| % 2 == 1
    ensures forall i | 0 <= i < |p| :: (p[i] in m) <==> i % 2 == 1
    ensures forall i, j | 0 <= i < j < |p| :: p[i] != p[j]
  {
    Alternates(s, m, start, p);
    PathEdges(s, start, p);
    var w := Walk(s, start, p);
    forall i, j | 0 <= i < j < |p|
      ensures p[i] != p[j]
    {
      assert w[i] != w[j];
    }
  }

  /** Every inner node of an augmenting path is covered by a matched edge of the path. */
  lemma InnerNodeMatched(s: Snapshot, m: set<nat>, start: Handle, p: seq<nat>, k: nat)
    requires Augmenting(s, m, start, p) && 0 < k < |p|
    ensures var q := if k % 2 == 1 then p[k] else p[k - 1];
            q in m && q in Elems(p) && (s.edges[q].source == Walk(s, start, p)[k] || s.edges[q].dest == Walk(s, start, p)[k])
  {
    AugmentingShape(s, m, start, p);
    PathEdges(s, start, p);
  }

  /** A matched edge off the path touches none of the path's nodes. */
  lemma OffPathAvoidsWalk(s: Snapshot, m: set<nat>, start: Handle, p: seq<nat>, a: nat, k: nat)
    requires Augmenting(s, m, start, p) && a in m && a !in Elems(p) && k <= |p|
    ensures s.edges[a].source != Walk(s, start, p)[k] && s.edges[a].dest != Walk(s, start, p)[k]
  {
    CoveredOfMember(s, m, a);
    if 0 < k < |p| {
      InnerNodeMatched(s, m, start, p, k);
      var q := if k % 2 == 1 then p[k] else p[k - 1];
      assert ShareNoEnd(s.edges[a], s.edges[q]);
    }
  }

  lemma DoubleParity(b: nat)
    ensures (2 * b) % 2 == 0 && (2 * b + 1) % 2 == 1
  {
  }

  lemma OddHalves(n: nat)
    requires n % 2 == 1
    ensures (n + 1) / 2 == n / 2 + 1
  {
  }

  /** An entry of `path[::2]` sits at an even position of the path. */
  lemma EvenEntry(p: seq<nat>, x: nat) returns (b: nat)
    requires x in Elems(EveryOther(p))
    ensures 2 * b < |p| && p[2 * b] == x
  {
    b :| 0 <= b < |EveryOther(p)| && EveryOther(p)[b] == x;
  }

  lemma EvenUnmatched(s: Snapshot, m: set<nat>, start: Handle, p: seq<nat>, b: nat)
    requires Augmenting(s, m, start, p) && 2 * b < |p|
    ensures p[2 * b] !in m && p[2 * b] < |s.edges|
  {
    AugmentingShape(s, m, start, p);
    PathEdges(s, start, p);
    DoubleParity(b);
  }

  lemma OddMatched(s: Snapshot, m: set<nat>, start: Handle, p: seq<nat>, b: nat)
    requires Augmenting(s, m, start, p) && 2 * b + 1 < |p|
    ensures p[2 * b + 1] in m
  {
    AugmentingShape(s, m, start, p);
    DoubleParity(b);
  }

  lemma WalkApart(s: Snapshot, start: Handle, p: seq<nat>, i: nat, j: nat)
    requires DistinctWalk(s, start, p) && i != j && i <= |p| && j <= |p|
    ensures Walk(s, start, p)[i] != Walk(s, start, p)[j]
  {
    if i < j {
      assert Walk(s, start, p)[i] != Walk(s, start, p)[j];
    } else {
      assert Walk(s, start, p)[j] != Walk(s, start, p)[i];
    }
  }

  /** Two different unmatched edges of the path share no node. */
  lemma EvensApart(s: Snapshot, start: Handle, p: seq<nat>, a: nat, b: nat)
    requires StepPath(s, start, p) && DistinctWalk(s, start, p) && a != b && 2 * a < |p| && 2 * b < |p|
    ensures p[2 * a] < |s.edges| && p[2 * b] < |s.edges| && ShareNoEnd(s.edges[p[2 * a]], s.edges[p[2 * b]])
  {
    PathEdges(s, start, p);
    WalkApart(s, start, p, 2 * a, 2 * b);
    WalkApart(s, start, p, 2 * a, 2 * b + 1);
    WalkApart(s, start, p, 2 * a + 1, 2 * b);
    WalkApart(s, start, p, 2 * a + 1, 2 * b + 1);
  }

  /** A matched edge off the path shares no node with an unmatched edge of the path. */
  lemma OffPathApart(s: Snapshot, m: set<nat>, start: Handle, p: seq<nat>, i: nat, b: nat)
    requires Augmenting(s, m, start, p) && i in m && i !in Elems(p) && 2 * b < |p|
    ensures p[2 * b] < |s.edges| && ShareNoEnd(s.edges[i], s.edges[p[2 * b]])
  {
    PathEdges(s, start, p);
    OffPathAvoidsWalk(s, m, start, p, i, 2 * b);
    OffPathAvoidsWalk(s, m, start, p, i, 2 * b + 1);
  }

  /** Exchanging the edges along an augmenting path gives a matching. */
  lemma AugmentedIsMatching(s: Snapshot, m: set<nat>, start: Handle, p: seq<nat>)
    requires Augmenting(s, m, start, p)
    ensures IsMatching(s, Augmented(m, p))
  {
    var m' := Augmented(m, p);
    EvensOff(s, m, start, p);
    forall i, j | i in m' && j in m' && i != j
      ensures ShareNoEnd(s.edges[i], s.edges[j])
    {
      if i in m && j in m {
      } else if i in m {
        var b := EvenEntry(p, j);
        OffPathApart(s, m, start, p, i, b);
      } else if j in m {
        var a := EvenEntry(p, i);
        OffPathApart(s, m, start, p, j, a);
      } else {
        var a := EvenEntry(p, i);
        var b := EvenEntry(p, j);
        EvensApart(s, start, p, a, b);
      }
    }
  }

  /** The path's entries split into its even and its odd positions. */
  lemma ParitySplit(p: seq<nat>)
    requires p != []
    ensures Elems(p) == Elems(EveryOther(p)) + Elems(EveryOther(p[1..]))
  {
    forall x | x in Elems(p)
      ensures x in Elems(EveryOther(p)) + Elems(EveryOther(p[1..]))
    {
      var i :| 0 <= i < |p| && p[i] == x;
      if i % 2 == 0 {
        assert EveryOther(p)[i / 2] == x;
      } else {
        assert EveryOther(p[1..])[(i - 1) / 2] == x;
      }
    }
    EveryOtherWithin(p);
    EveryOtherWithin(p[1..]);
    assert forall x | x in p[1..] :: x in p;
  }

  /** Taking every other entry of a repetition-free sequence keeps it repetition-free. */
  lemma EveryOtherDistinct(p: seq<nat>)
    requires forall i, j | 0 <= i < j < |p| :: p[i] != p[j]
    ensures var r := EveryOther(p); forall i, j | 0 <= i < j < |r| :: r[i] != r[j]
  {
  }

  /** The unmatched edges of an augmenting path are not in the matching. */
  lemma EvensOff(s: Snapshot, m: set<nat>, start: Handle, p: seq<nat>)
    requires Augmenting(s, m, start, p)
    ensures forall x | x in Elems(EveryOther(p)) :: x < |s.edges| && x !in m
  {
    forall x | x in Elems(EveryOther(p))
      ensures x < |s.edges| && x !in m
    {
      var b := EvenEntry(p, x);
      EvenUnmatched(s, m, start, p, b);
    }
  }

  /** The matched edges of an augmenting path are in the matching. */
  lemma OddsIn(s: Snapshot, m: set<nat>, start: Handle, p: seq<nat>)
    requires Augmenting(s, m, start, p) && p != []
    ensures Elems(EveryOther(p[1..])) <= m
  {
    var odd := EveryOther(p[1..]);
    forall x | x in Elems(odd)
      ensures x in m
    {
      var j :| 0 <= j < |odd| && odd[j] == x;
      assert x == p[2 * j + 1];
      OddMatched(s, m, start, p, j);
    }
  }

  /** A repetition-free path of odd length has one more entry at even positions than at odd ones. */
  lemma ParityCounts(p: seq<nat>)
    requires |p| % 2 == 1 && forall i, j | 0 <= i < j < |p| :: p[i] != p[j]
    ensures |Elems(EveryOther(p))| == |Elems(EveryOther(p[1..]))| + 1
  {
    EveryOtherDistinct(p);
    EveryOtherDistinct(p[1..]);
    DistinctCard(EveryOther(p));
    DistinctCard(EveryOther(p[1..]));
    OddHalves(|p|);
  }

  /** Augmenting along a path adds exactly one edge to the matching. */
  lemma AugmentedGrows(s: Snapshot, m: set<nat>, start: Handle, p: seq<nat>)
    requires Augmenting(s, m, start, p)
    ensures |Augmented(m, p)| == |m| + 1
  {
    AugmentingShape(s, m, start, p);
    EvensOff(s, m, start, p);
    OddsIn(s, m, start, p);
    ParitySplit(p);
    ParityCounts(p);
    ExchangeCard(m, Elems(p), Elems(EveryOther(p[1..])), Elems(EveryOther(p)));
  }

  /** Trading the matched edges `odds` for the one-larger set `evens` grows the matching by one. */
  lemma ExchangeCard(m: set<nat>, all: set<nat>, odds: set<nat>, evens: set<nat>)
    requires all == evens + odds && odds <= m && m * evens == {} && |evens| == |odds| + 1
    ensures |(m - all) + evens| == |m| + 1
  {
    assert m - all == m - odds;
    assert m == (m - odds) + odds && (m - odds) * odds == {};
    assert (m - odds) * evens == {};
  }

  // ---------------------------------------------------------------------
  // Bookkeeping of `nodes_in_matching` during an augmentation

  /**
   * Dropping a matched path edge `e` from the covered set: both endpoints
   * are still there (so `remove` cannot fail), and afterwards the set no
   * longer covers `e`.
   */
  lemma FilterStep(s: Snapshot, m: set<nat>, onPath: set<nat>, rest: set<nat>, e: nat)
    requires IsMatching(s, m) && rest <= m && e in rest && e in onPath
    requires s.edges[e].source != s.edges[e].dest
    ensures var x, y := s.edges[e].source, s.edges[e].dest;
            var nim := Covered(s, m) - Covered(s, (m - rest) * onPath);
            && x in nim && y in nim - {x}
            && nim - {x} - {y} == Covered(s, m) - Covered(s, (m - (rest - {e})) * onPath)
            && (m - (rest - {e})) - onPath == (m - rest) - onPath
  {
    var x, y := s.edges[e].source, s.edges[e].dest;
    var done := m - rest;
    CoveredOfMember(s, m, e);
    forall z | z in Covered(s, done * onPath)
      ensures z != x && z != y
    {
      CoveredWitness(s, done * onPath, z);
      var f :| f in done * onPath && f < |s.edges| && (s.edges[f].source == z || s.edges[f].dest == z);
      assert ShareNoEnd(s.edges[e], s.edges[f]);
    }
    assert (m - (rest - {e})) * onPath == done * onPath + {e};
    CoveredInsert(s, done * onPath, e);
  }

  /** Keeping a matched edge off the path. */
  lemma FilterKeep(m: set<nat>, onPath: set<nat>, rest: set<nat>, e: nat)
    requires rest <= m && e in rest && e !in onPath
    ensures (m - (rest - {e})) * onPath == (m - rest) * onPath
    ensures (m - (rest - {e})) - onPath == ((m - rest) - onPath) + {e}
  {
  }

  /** What the filtering loop leaves covered is covered by the matched edges off the path. */
  lemma LeftoverCovered(s: Snapshot, m: set<nat>, onPath: set<nat>)
    ensures Covered(s, m) - Covered(s, m * onPath) <= Covered(s, m - onPath)
  {
    assert m == m * onPath + (m - onPath);
    CoveredUnion(s, m * onPath, m - onPath);
  }

  /** The nodes covered by a subset of `m` are covered by `m`. */
  lemma CoveredMonotone(s: Snapshot, m: set<nat>, n: set<nat>)
    requires m <= n
    ensures Covered(s, m) <= Covered(s, n)
  {
    assert n == m + (n - m);
    CoveredUnion(s, m, n - m);
  }

  // ---------------------------------------------------------------------
  // The algorithm

  /**
   * `_direct_graph(matching)`: each matched edge leaving A and each
   * unmatched edge leaving B is swapped; nothing else changes.
   */
  method DirectGraph(g: Graph, m: set<nat>)
    requires g.Valid()
    modifies g
    ensures g.Valid() && DirectedFrom(old(g.Snap()), g.Snap(), m)
  {
    ghost var s := g.Snap();
    for i := 0 to |g.edgeList|
      invariant g.Valid() && g.store == s.store && g.nodeList == s.nodes
      invariant DirectedUpTo(s, m, g.edgeList, i)
    {
      ghost var cur := g.edgeList;
      var e := g.edgeList[i];
      assert e in s.edges;
      if i in m {
        if g.store[e.source].group == A {
          g.SwapEdge(i);
        }
      } else if g.store[e.source].group == B {
        g.SwapEdge(i);
      }
      DirectedStep(s, m, cur, i);
    }
  }

  /** The first `i` edges of `edges` are as `_direct_graph(m)` leaves them, the rest as in `s`. */
  ghost predicate DirectedUpTo(s: Snapshot, m: set<nat>, edges: seq<Edge>, i: nat)
  {
    && |edges| == |s.edges| && i <= |edges|
    && (forall j | 0 <= j < i :: edges[j] == DirectEdge(s, m, j))
    && (forall j | i <= j < |s.edges| :: edges[j] == s.edges[j])
  }

  lemma DirectedStep(s: Snapshot, m: set<nat>, edges: seq<Edge>, i: nat)
    requires DirectedUpTo(s, m, edges, i) && i < |edges|
    ensures DirectedUpTo(s, m, edges[i := DirectEdge(s, m, i)], i + 1)
  {
  }

  /**
   * The filtering loop of `hungarian_algorithm`: the matched edges are
   * visited in an arbitrary order (the set's iteration order); those off
   * the path are kept, and those on it have both endpoints removed from the
   * covered set. Every removal finds its node.
   */
  method FilterMatching(g: Graph, m: set<nat>, nim0: set<Handle>, path: seq<nat>)
    returns (filtered: set<nat>, nim: set<Handle>)
    requires g.Valid() && IsMatching(g.Snap(), m) && nim0 == Covered(g.Snap(), m)
    ensures filtered == m - Elems(path)
    ensures nim == Covered(g.Snap(), m) - Covered(g.Snap(), m * Elems(path))
  {
    ghost var s := g.Snap();
    filtered, nim := {}, nim0;
    var rest := m;
    while rest != {}
      invariant rest <= m
      invariant filtered == (m - rest) - Elems(path)
      invariant nim == Covered(s, m) - Covered(s, (m - rest) * Elems(path))
      decreases |rest|
    {
      var e :| e in rest;
      if e !in path {
        FilterKeep(m, Elems(path), rest, e);
        filtered := filtered + {e};
      } else {
        assert e in Elems(path) && g.edgeList[e] in g.edgeList;
        FilterStep(s, m, Elems(path), rest, e);
        var x, y := g.edgeList[e].source, g.edgeList[e].dest;
        assert x in nim;
        nim := nim - {x};
        assert y in nim;
        nim := nim - {y};
      }
      rest := rest - {e};
    }
    assert m - rest == m;
  }

  /** The adding loop of `hungarian_algorithm`: both endpoints of every edge of `m` join the covered set. */
  method CoverMatching(g: Graph, m: set<nat>, nim0: set<Handle>) returns (nim: set<Handle>)
    requires forall i | i in m :: i < |g.edgeList|
    ensures nim == nim0 + Covered(g.Snap(), m)
  {
    ghost var s := g.Snap();
    nim := nim0;
    var rest := m;
    while rest != {}
      invariant rest <= m
      invariant nim == nim0 + Covered(s, m - rest)
      decreases |rest|
    {
      var e :| e in rest;
      CoveredInsert(s, m - rest, e);
      assert m - (rest - {e}) == m - rest + {e};
      nim := nim + {g.edgeList[e].source};
      nim := nim + {g.edgeList[e].dest};
      rest := rest - {e};
    }
  }

  /**
   * One augmentation in `hungarian_algorithm`: filter the matching, add the
   * unmatched path edges `path[::2]`, re-orient the graph and recompute the
   * covered nodes. The result is a matching with one more edge, the graph
   * oriented for it, and the covered set its endpoints.
   */
  method Augment(g: Graph, m: set<nat>, nim0: set<Handle>, path: seq<nat>, ghost start: Handle)
    returns (m': set<nat>, nim: set<Handle>)
    requires g.Valid() && Augmenting(g.Snap(), m, start, path) && nim0 == Covered(g.Snap(), m)
    modifies g
    ensures g.Valid() && Reoriented(old(g.Snap()), g.Snap())
    ensures m' == Augmented(m, path) && |m'| == |m| + 1
    ensures MatchState(g.Snap(), m', nim)
  {
    ghost var s := g.Snap();
    var filtered;
    filtered, nim := FilterMatching(g, m, nim0, path);
    m' := filtered + Elems(EveryOther(path));
    AugmentedIsMatching(s, m, start, path);
    DirectGraph(g, m');
    ghost var base := nim;
    nim := CoverMatching(g, m', nim);
    AugmentSettles(s, g.Snap(), m, start, path, base, nim);
  }

  /** After the re-orientation and the adding loop, the new matching state holds. */
  lemma AugmentSettles(s: Snapshot, t: Snapshot, m: set<nat>, start: Handle, path: seq<nat>,
                       base: set<Handle>, nim: set<Handle>)
    requires Augmenting(s, m, start, path) && DirectedFrom(s, t, Augmented(m, path))
    requires base == Covered(s, m) - Covered(s, m * Elems(path)) && nim == base + Covered(t, Augmented(m, path))
    ensures Reoriented(s, t) && |Augmented(m, path)| == |m| + 1
    ensures MatchState(t, Augmented(m, path), nim)
  {
    var m' := Augmented(m, path);
    AugmentedIsMatching(s, m, start, path);
    AugmentedGrows(s, m, start, path);
    LeftoverCovered(s, m, Elems(path));
    CoveredMonotone(s, m - Elems(path), m');
    Redirected(s, t, m', base, nim);
  }

  /** Re-orienting the graph for a matching and covering its endpoints gives the matching state. */
  lemma Redirected(s: Snapshot, t: Snapshot, m: set<nat>, base: set<Handle>, nim: set<Handle>)
    requires Sided(s) && IsMatching(s, m) && DirectedFrom(s, t, m)
    requires base <= Covered(s, m) && nim == base + Covered(t, m)
    ensures Reoriented(s, t) && MatchState(t, m, nim)
  {
    DirectedIsOriented(s, t, m);
    ReorientedKeeps(s, t, m);
  }

  /**
   * The body of the `for node in node_list` loop: a free node of group A
   * searches for an augmenting path into the free part of `group_b` and
   * augments along it when there is one.
   */
  method TryAugment(g: Graph, node: Handle, groupB: set<Handle>, m: set<nat>, nim: set<Handle>)
    returns (m': set<nat>, nim': set<Handle>, augmented: bool)
    requires g.Valid() && MatchState(g.Snap(), m, nim) && groupB == GroupB(g.Snap()) && node in g.nodeList
    modifies g
    ensures g.Valid() && MatchState(g.Snap(), m', nim') && Reoriented(old(g.Snap()), g.Snap())
    ensures augmented ==> |m'| == |m| + 1
    ensures !augmented ==> m' == m && nim' == nim && g.Snap() == old(g.Snap())
    ensures !augmented ==> node in nim || GroupOf(g.Snap(), node) != A || NoAugmentingFrom(g.Snap(), node, groupB - nim)
  {
    m', nim', augmented := m, nim, false;
    if node !in nim && g.store[node].group == A {
      var candidate;
      ghost var found;
      candidate, found := FindAugmentingPath(g, node, groupB - nim);
      if candidate.Some? {
        CandidateAugments(g.Snap(), m, nim, node, groupB, candidate.value);
        m', nim' := Augment(g, m, nim, candidate.value, node);
        augmented := true;
      }
    }
  }

  /**
   * One pass of the `for node in node_list` loop. `flag` tells whether any
   * node augmented; when none did, nothing changed and no free A node has
   * an augmenting path.
   */
  method MatchingPass(g: Graph, groupB: set<Handle>, m0: set<nat>, nim0: set<Handle>)
    returns (m: set<nat>, nim: set<Handle>, flag: bool)
    requires g.Valid() && MatchState(g.Snap(), m0, nim0) && groupB == GroupB(g.Snap())
    modifies g
    ensures g.Valid() && MatchState(g.Snap(), m, nim) && Reoriented(old(g.Snap()), g.Snap())
    ensures flag ==> |m| > |m0|
    ensures !flag ==> m == m0 && g.edgeList == old(g.edgeList) && NothingToAugment(g.Snap(), m)
  {
    ghost var s := g.Snap();
    m, nim, flag := m0, nim0, false;
    for k := 0 to |g.nodeList|
      invariant g.Valid() && MatchState(g.Snap(), m, nim) && Reoriented(s, g.Snap())
      invariant flag ==> |m| > |m0|
      invariant !flag ==> m == m0 && nim == nim0 && g.Snap() == s && PassedOver(s, k, nim0, groupB - nim0)
    {
      ghost var before := g.Snap();
      GroupBKept(s, before);
      var augmented;
      m, nim, augmented := TryAugment(g, g.nodeList[k], groupB, m, nim);
      ReorientedTrans(s, before, g.Snap());
      if augmented {
        flag := true;
      } else if !flag {
        PassedStep(s, k, nim0, groupB - nim0);
      }
    }
    if !flag {
      PassedAll(s, m, groupB);
    }
  }

  /** Each of the first `k` listed nodes is covered, outside A, or without a BFS path into `targets`. */
  ghost predicate PassedOver(s: Snapshot, k: nat, covered: set<Handle>, targets: set<Handle>)
  {
    forall j | 0 <= j < k && j < |s.nodes| ::
      s.nodes[j] in covered || GroupOf(s, s.nodes[j]) != A || NoAugmentingFrom(s, s.nodes[j], targets)
  }

  lemma PassedStep(s: Snapshot, k: nat, covered: set<Handle>, targets: set<Handle>)
    requires PassedOver(s, k, covered, targets) && k < |s.nodes|
    requires s.nodes[k] in covered || GroupOf(s, s.nodes[k]) != A || NoAugmentingFrom(s, s.nodes[k], targets)
    ensures PassedOver(s, k + 1, covered, targets)
  {
  }

  /** A pass that passed over every node without augmenting leaves nothing to augment. */
  lemma PassedAll(s: Snapshot, m: set<nat>, groupB: set<Handle>)
    requires PassedOver(s, |s.nodes|, Covered(s, m), groupB - Covered(s, m)) && groupB == GroupB(s)
    ensures NothingToAugment(s, m)
  {
    forall h | h in s.nodes && GroupOf(s, h) == A && h !in Covered(s, m)
      ensures NoAugmentingFrom(s, h, GroupB(s) - Covered(s, m))
    {
      var j :| 0 <= j < |s.nodes| && s.nodes[j] == h;
    }
  }

  /** A path the search answers from a free A node into the free part of B is augmenting. */
  lemma CandidateAugments(s: Snapshot, m: set<nat>, nim: set<Handle>, start: Handle, groupB: set<Handle>, p: seq<nat>)
    requires MatchState(s, m, nim) && groupB == GroupB(s)
    requires start !in nim && GroupOf(s, start) == A && Candidate(s, start, groupB - nim, p)
    ensures Augmenting(s, m, start, p)
  {
  }

  /**
   * `hungarian_algorithm`: fails when the graph is not bipartite; otherwise
   * tags the two sides, orients every edge from A to B, and repeats passes
   * until one finds no augmenting path. The matching it ends with is a
   * matching of the graph, the graph is oriented for it, and no free A node
   * has an augmenting path left. Each augmentation adds an edge, which
   * bounds the number of passes by the number of edges.
   */
  method HungarianAlgorithm(g: Graph) returns (ok: bool, m: set<nat>)
    requires g.Valid()
    modifies g
    ensures g.Valid() && g.nodeList == old(g.nodeList) && |g.edgeList| == |old(g.edgeList)|
    ensures forall i | 0 <= i < |g.edgeList| :: g.edgeList[i] == old(g.edgeList)[i] || g.edgeList[i] == Swapped(old(g.edgeList)[i])
    ensures !ok ==> g.store == old(g.store) && g.edgeList == old(g.edgeList) && m == {}
    ensures !ok ==> forall f :: !ProperTwoColouring(g.Snap(), f)
    ensures ok ==> forall h | h in g.nodeList :: GroupOf(g.Snap(), h) == A || GroupOf(g.Snap(), h) == B
    ensures ok ==> Sided(g.Snap()) && IsMatching(g.Snap(), m) && Oriented(g.Snap(), m)
    ensures ok ==> NothingToAugment(g.Snap(), m)
    ensures ok ==> |g.store| == |old(g.store)| && forall h | 0 <= h < |g.store| :: g.store[h] == old(g.store)[h].(group := g.store[h].group)
  {
    m := {};
    ok := IsBipartite(g);
    if !ok {
      return;
    }
    ghost var tagged := g.Snap();
    TaggedIsSided(tagged);
    var groupB := set h | h in g.nodeList && g.store[h].group == B;
    assert groupB == GroupB(tagged);
    var nim: set<Handle> := {};
    DirectGraph(g, m);
    DirectedIsOriented(tagged, g.Snap(), m);
    ghost var directed := g.Snap();
    while true
      invariant g.Valid() && MatchState(g.Snap(), m, nim) && Reoriented(tagged, g.Snap())
      decreases |g.edgeList| - |m|
    {
      BoundedCard(m, |g.edgeList|);
      ghost var before := g.Snap();
      GroupBKept(tagged, before);
      var flag;
      m, nim, flag := MatchingPass(g, groupB, m, nim);
      ReorientedTrans(tagged, before, g.Snap());
      BoundedCard(m, |g.edgeList|);
      if !flag {
        break;
      }
    }
  }
}

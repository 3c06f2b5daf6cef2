/**
 * The cut vertex search of GraphAlgorithms.py: `dfs_vertex_cut`, the
 * recursive depth-first search that stamps discovery times and low values
 * and flags articulation points, and `tarjan_algorithm_cut_vertex`, which
 * runs it from every undiscovered node and returns the first flagged node.
 * The four dictionaries the search shares are threaded through the calls
 * as one `Dfs` value: each call takes them and hands back the updated ones.
 */
module CutVertex {

  import opened Wrappers
  import opened GraphNode
  import opened GraphStore
  import opened Traversal

  /** The four dictionaries of the search as one value. */
  datatype Dfs = Dfs(
    disc: map<Handle, int>,
    low: map<Handle, int>,
    parent: map<Handle, Option<Handle>>,
    art: map<Handle, bool>)

  /**
   * What the proof keeps beside the dictionaries: the nodes in the order
   * they were discovered, the nodes whose search has returned, and for each
   * flagged node the children that justify its flag.
   */
  datatype Trace = Trace(order: seq<Handle>, done: set<Handle>, why: map<Handle, (Handle, Handle)>)

  /**
   * What the search needs of the graph: listed nodes have slots and their
   * neighbours are other listed nodes.
   */
  ghost predicate Linked(s: Snapshot)
  {
    && (forall h | h in s.nodes :: h < |s.store|)
    && (forall h, k {:trigger k in Nbrs(s, h)} | h in s.nodes && k in Nbrs(s, h) :: k in s.nodes && k != h)
  }

  /** What the outer loop needs besides: no node is listed twice. */
  ghost predicate Unrepeated(s: Snapshot)
  {
    forall i | 0 <= i < |s.nodes| :: s.nodes[i] !in s.nodes[..i]
  }

  lemma ValidIsLinked(s: Snapshot)
    requires WellFormed(s)
    ensures Linked(s) && Unrepeated(s)
  {
  }

  /** Every dictionary has exactly the listed nodes as keys. */
  ghost predicate Keyed(d: Dfs, keys: set<Handle>)
  {
    d.disc.Keys == keys && d.low.Keys == keys && d.parent.Keys == keys && d.art.Keys == keys
  }

  /** `u` is a finished child of `h` in the search tree. */
  ghost predicate ChildOf(d: Dfs, done: set<Handle>, u: Handle, h: Handle)
  {
    u in done && u in d.parent && d.parent[u] == Some(h)
  }

  /**
   * The reason for a flag on `h`: a root (no parent) with two finished
   * children `w.0` and `w.1`, or a non-root with a finished child `w.0` whose
   * low value does not reach above `h`.
   */
  ghost predicate JustifiedBy(d: Dfs, done: set<Handle>, h: Handle, w: (Handle, Handle))
    requires h in d.parent && h in d.disc
  {
    || (d.parent[h] == None && w.0 != w.1 && ChildOf(d, done, w.0, h) && ChildOf(d, done, w.1, h))
    || (d.parent[h] != None && ChildOf(d, done, w.0, h) && w.0 in d.low && d.low[w.0] >= d.disc[h])
  }

  /**
   * The invariant at one node: undiscovered, it has low value -1, no flag
   * and is not finished; discovered, `0 <= low <= disc` and it sits at place
   * `disc` of the discovery order; its parent is a discovered neighbour,
   * discovered before it; and a flag on it has its reason.
   */
  ghost predicate NodeOk(s: Snapshot, d: Dfs, keys: set<Handle>, tr: Trace, h: Handle)
    requires Keyed(d, keys) && h in keys
  {
    && (d.disc[h] == -1 ==> d.low[h] == -1 && !d.art[h] && h !in tr.done)
    && (d.disc[h] != -1 ==> 0 <= d.low[h] <= d.disc[h] < |tr.order| && tr.order[d.disc[h]] == h)
    && (d.parent[h].Some? ==>
          var p := d.parent[h].value;
          && p in keys && d.disc[p] != -1 && h in Nbrs(s, p)
          && (d.disc[h] != -1 ==> d.disc[p] < d.disc[h]))
    && (d.art[h] ==> h in tr.why && JustifiedBy(d, tr.done, h, tr.why[h]))
  }

  /**
   * The search invariant: every node is in order, and the discovery order
   * lists discovered nodes only, each at the place of its discovery time.
   */
  ghost predicate Inv(s: Snapshot, d: Dfs, keys: set<Handle>, tr: Trace)
  {
    && Keyed(d, keys)
    && (forall h {:trigger NodeOk(s, d, keys, tr, h)} | h in keys :: NodeOk(s, d, keys, tr, h))
    && (forall i | 0 <= i < |tr.order| :: tr.order[i] in keys && d.disc[tr.order[i]] == i)
  }

  /** Entries of nodes discovered in `d0` are the same in `d1`. */
  ghost predicate Frozen(d0: Dfs, d1: Dfs, keys: set<Handle>)
    requires Keyed(d0, keys) && Keyed(d1, keys)
  {
    forall h {:trigger d1.disc[h]} {:trigger d1.low[h]} {:trigger d1.parent[h]} {:trigger d1.art[h]}
      | h in keys && d0.disc[h] != -1 ::
      d1.disc[h] == d0.disc[h] && d1.low[h] == d0.low[h] &&
      d1.parent[h] == d0.parent[h] && d1.art[h] == d0.art[h]
  }

  /** The nodes not reached yet (discovery time -1): the search's measure of work left. */
  ghost function Pending(disc: map<Handle, int>, keys: set<Handle>): set<Handle>
  {
    set h | h in keys && h in disc && disc[h] == -1
  }

  /** No two nodes share a discovery time, and every time is below the next one to hand out. */
  lemma StampsDistinct(s: Snapshot, d: Dfs, keys: set<Handle>, tr: Trace, h: Handle, k: Handle)
    requires Inv(s, d, keys, tr) && h in keys && k in keys && d.disc[h] != -1
    ensures 0 <= d.disc[h] < |tr.order|
    ensures d.disc[h] == d.disc[k] ==> h == k
  {
    assert NodeOk(s, d, keys, tr, h) && NodeOk(s, d, keys, tr, k);
  }

  // ---------------------------------------------------------------------
  // One update of the dictionaries at a time

  /** `discovery[v] = low[v] = time_`, for an undiscovered `v`, `time_` the next time. */
  lemma DiscoverKeeps(s: Snapshot, d: Dfs, keys: set<Handle>, tr: Trace, v: Handle)
    requires Inv(s, d, keys, tr) && v in keys && d.disc[v] == -1
    ensures var t := |tr.order|;
            var d' := d.(disc := d.disc[v := t], low := d.low[v := t]);
            && Inv(s, d', keys, tr.(order := tr.order + [v]))
            && Frozen(d, d', keys)
  {
    var t := |tr.order|;
    var d' := d.(disc := d.disc[v := t], low := d.low[v := t]);
    var tr' := tr.(order := tr.order + [v]);
    assert Keyed(d', keys);
    forall h | h in keys
      ensures NodeOk(s, d', keys, tr', h)
    {
      assert NodeOk(s, d, keys, tr, h);
      if d.parent[h].Some? {
        assert NodeOk(s, d, keys, tr, d.parent[h].value);
      }
      if d.art[h] {
        var w := tr.why[h];
        assert JustifiedBy(d', tr'.done, h, w);
      }
    }
    forall i | 0 <= i < |tr'.order|
      ensures tr'.order[i] in keys && d'.disc[tr'.order[i]] == i
    {
      if i < t {
        assert tr.order[i] != v;
      }
    }
  }

  /** `parent[u] = v`, for an undiscovered neighbour `u` of a discovered `v`. */
  lemma AdoptKeeps(s: Snapshot, d: Dfs, keys: set<Handle>, tr: Trace, v: Handle, u: Handle)
    requires Inv(s, d, keys, tr) && u in keys && v in keys
    requires d.disc[u] == -1 && d.disc[v] != -1 && u in Nbrs(s, v)
    ensures var d' := d.(parent := d.parent[u := Some(v)]);
            && Inv(s, d', keys, tr)
            && Frozen(d, d', keys)
  {
    var d' := d.(parent := d.parent[u := Some(v)]);
    assert Keyed(d', keys);
    assert NodeOk(s, d, keys, tr, u);
    forall h | h in keys
      ensures NodeOk(s, d', keys, tr, h)
    {
      assert NodeOk(s, d, keys, tr, h);
      if d.art[h] {
        var w := tr.why[h];
        assert JustifiedBy(d', tr.done, h, w);
      }
    }
  }

  /** `parent[u] = v`, for an undiscovered `u` and an unfinished `v`, leaves the finished nodes settled. */
  lemma AdoptFinished(s: Snapshot, d: Dfs, keys: set<Handle>, tr: Trace, v: Handle, u: Handle)
    requires Inv(s, d, keys, tr) && Finished(s, d, keys, tr.done) && u in keys && v in keys && v !in tr.done
    requires d.disc[u] == -1 && d.disc[v] != -1 && u in Nbrs(s, v)
    ensures Finished(s, d.(parent := d.parent[u := Some(v)]), keys, tr.done)
  {
    AdoptKeeps(s, d, keys, tr, v, u);
    var d1 := d.(parent := d.parent[u := Some(v)]);
    FinishedKept(s, d, d1, keys, tr.done, tr.done, None);
    forall h | h in tr.done
      ensures h in keys && d1.disc[h] != -1 && Settled(s, d1, keys, tr.done, h)
    {
      assert Settled(s, d1, keys, tr.done, h);
    }
  }

  /** `low[v] = min(low[v], x)` for a discovered, unfinished `v` and `x >= 0`. */
  lemma LowerKeeps(s: Snapshot, d: Dfs, keys: set<Handle>, tr: Trace, v: Handle, x: int)
    requires Inv(s, d, keys, tr) && v in keys && d.disc[v] != -1 && v !in tr.done && x >= 0
    ensures Inv(s, d.(low := d.low[v := Min(d.low[v], x)]), keys, tr)
  {
    var d' := d.(low := d.low[v := Min(d.low[v], x)]);
    assert Keyed(d', keys);
    forall h | h in keys
      ensures NodeOk(s, d', keys, tr, h)
    {
      assert NodeOk(s, d, keys, tr, h);
      if d.art[h] {
        var w := tr.why[h];
        assert JustifiedBy(d', tr.done, h, w);
      }
    }
  }

  /** `articulation_point[v] = True`, with the children `w` as its reason. */
  lemma FlagKeeps(s: Snapshot, d: Dfs, keys: set<Handle>, tr: Trace, v: Handle, w: (Handle, Handle))
    requires Inv(s, d, keys, tr) && v in keys && d.disc[v] != -1 && JustifiedBy(d, tr.done, v, w)
    ensures Inv(s, d.(art := d.art[v := true]), keys, tr.(why := tr.why[v := w]))
  {
    var d' := d.(art := d.art[v := true]);
    var tr' := tr.(why := tr.why[v := w]);
    assert Keyed(d', keys);
    forall h | h in keys
      ensures NodeOk(s, d', keys, tr', h)
    {
      assert NodeOk(s, d, keys, tr, h);
      if d'.art[h] {
        var w' := tr'.why[h];
        assert JustifiedBy(d', tr'.done, h, w');
      }
    }
  }

  /** A discovered node whose search returns joins `done`. */
  lemma FinishKeeps(s: Snapshot, d: Dfs, keys: set<Handle>, tr: Trace, v: Handle)
    requires Inv(s, d, keys, tr) && v in keys && d.disc[v] != -1
    ensures Inv(s, d, keys, tr.(done := tr.done + {v}))
  {
    var tr' := tr.(done := tr.done + {v});
    forall h | h in keys
      ensures NodeOk(s, d, keys, tr', h)
    {
      assert NodeOk(s, d, keys, tr, h);
      if d.art[h] {
        var w := tr.why[h];
        assert JustifiedBy(d, tr'.done, h, w);
      }
    }
  }

  /**
   * From `d0` to `d1` the search only went forward: entries of discovered
   * nodes are frozen, finished nodes stay finished, and the newly finished
   * ones were undiscovered in `d0`.
   */
  ghost predicate Grew(d0: Dfs, d1: Dfs, keys: set<Handle>, done0: set<Handle>, done1: set<Handle>)
    requires Keyed(d0, keys) && Keyed(d1, keys)
  {
    && Frozen(d0, d1, keys)
    && done0 <= done1
    && (forall h | h in done1 && h !in done0 :: h in keys && d0.disc[h] == -1)
  }

  lemma GrewTrans(d0: Dfs, d1: Dfs, d2: Dfs, keys: set<Handle>, done0: set<Handle>, done1: set<Handle>, done2: set<Handle>)
    requires Keyed(d0, keys) && Keyed(d1, keys) && Keyed(d2, keys)
    requires Grew(d0, d1, keys, done0, done1) && Grew(d1, d2, keys, done1, done2)
    ensures Grew(d0, d2, keys, done0, done2)
  {
  }

  /** Growth through `parent[u] = v` for an undiscovered `u` and a later search. */
  lemma AdoptGrew(d0: Dfs, d: Dfs, d2: Dfs, keys: set<Handle>, done0: set<Handle>, done: set<Handle>, done2: set<Handle>,
                  u: Handle, v: Handle)
    requires Keyed(d0, keys) && Keyed(d, keys) && Keyed(d2, keys) && u in keys && d.disc[u] == -1
    requires Grew(d0, d, keys, done0, done)
    requires Keyed(d.(parent := d.parent[u := Some(v)]), keys)
    requires Grew(d.(parent := d.parent[u := Some(v)]), d2, keys, done, done2)
    ensures Grew(d, d2, keys, done, done2) && Grew(d0, d2, keys, done0, done2)
  {
    GrewTrans(d, d.(parent := d.parent[u := Some(v)]), d2, keys, done, done, done2);
    GrewTrans(d0, d, d2, keys, done0, done, done2);
  }

  /** Lowering the low value of `v`, undiscovered in `d0`, keeps the growth from `d0`. */
  lemma LowerGrew(d0: Dfs, d1: Dfs, keys: set<Handle>, done0: set<Handle>, done1: set<Handle>, v: Handle, x: int)
    requires Keyed(d0, keys) && Keyed(d1, keys) && v in keys && d0.disc[v] == -1
    requires Grew(d0, d1, keys, done0, done1)
    ensures Keyed(d1.(low := d1.low[v := x]), keys)
    ensures Grew(d0, d1.(low := d1.low[v := x]), keys, done0, done1)
  {
  }

  /** Flagging `v`, undiscovered in `d0`, keeps the growth from `d0`. */
  lemma FlagGrew(d0: Dfs, d1: Dfs, keys: set<Handle>, done0: set<Handle>, done1: set<Handle>, v: Handle)
    requires Keyed(d0, keys) && Keyed(d1, keys) && v in keys && d0.disc[v] == -1
    requires Grew(d0, d1, keys, done0, done1)
    ensures Keyed(d1.(art := d1.art[v := true]), keys)
    ensures Grew(d0, d1.(art := d1.art[v := true]), keys, done0, done1)
  {
  }

  /** A search that discovers `v`, undiscovered before, leaves fewer nodes pending. */
  lemma PendingShrinks(d0: Dfs, d1: Dfs, keys: set<Handle>, v: Handle)
    requires Keyed(d0, keys) && Keyed(d1, keys) && Frozen(d0, d1, keys)
    requires v in keys && d0.disc[v] == -1 && d1.disc[v] != -1
    ensures Pending(d1.disc, keys) < Pending(d0.disc, keys)
  {
    assert v in Pending(d0.disc, keys);
  }

  /** A finished child stays a finished child while entries are frozen; it was discovered. */
  lemma ChildKept(s: Snapshot, d0: Dfs, d1: Dfs, keys: set<Handle>, tr0: Trace, done1: set<Handle>, c: Handle, v: Handle)
    requires Inv(s, d0, keys, tr0) && Keyed(d1, keys) && Frozen(d0, d1, keys)
    requires tr0.done <= done1 && c in keys && ChildOf(d0, tr0.done, c, v)
    ensures d0.disc[c] != -1 && ChildOf(d1, done1, c, v)
  {
    assert NodeOk(s, d0, keys, tr0, c);
  }

  function Min(a: int, b: int): int
  {
    if a < b then a else b
  }

  /** After `low[v] = min(low[v], low[u])`, `low[v]` is at most `low[u]`. */
  lemma MinBelow(low: map<Handle, int>, v: Handle, u: Handle)
    requires v in low && u in low && u != v
    ensures low[v := Min(low[v], low[u])][v] <= low[v := Min(low[v], low[u])][u]
  {
  }

  /**
   * The state inside `dfs_vertex_cut(v)` between neighbours: `d0` and `tr0`
   * are the state on entry, `time` the next time to hand out, and `first`
   * the first tree child of `v` once `children > 0`.
   */
  ghost predicate Visiting(s: Snapshot, d0: Dfs, d: Dfs, keys: set<Handle>, tr0: Trace, tr: Trace,
                           v: Handle, time: int, children: int, first: Option<Handle>)
  {
    && Keyed(d0, keys) && Inv(s, d, keys, tr) && v in keys
    && time == |tr.order| && |tr0.order| < time
    && d0.disc[v] == -1 && d.disc[v] == |tr0.order| && d.parent[v] == d0.parent[v] && v !in tr.done
    && Grew(d0, d, keys, tr0.done, tr.done)
    && (children > 0 ==> first.Some? && ChildOf(d, tr.done, first.value, v))
  }

  // ---------------------------------------------------------------------
  // What the search leaves at a finished node

  /**
   * The low value the neighbour loop of `dfs_vertex_cut` computes for `h`
   * over the neighbours `ns`: it starts at `discovery[h]`; a tree child `u`
   * brings in `low[u]`, the parent of `h` nothing, and any other neighbour
   * its discovery time.
   */
  ghost function LowFold(d: Dfs, keys: set<Handle>, h: Handle, ns: seq<Handle>): int
    requires Keyed(d, keys) && h in keys && forall u | u in ns :: u in keys
  {
    if ns == [] then d.disc[h]
    else
      var u := ns[|ns| - 1];
      var rest := LowFold(d, keys, h, ns[..|ns| - 1]);
      if d.parent[u] == Some(h) then Min(rest, d.low[u])
      else if d.parent[h] == Some(u) then rest
      else Min(rest, d.disc[u])
  }

  /**
   * `LowFold` is the minimum of `discovery[h]`, the low values of the tree
   * children of `h` in `ns` and the discovery times of the other neighbours
   * in `ns` but the parent of `h`: below each of them and equal to one.
   */
  lemma {:induction false} LowFoldIsMin(d: Dfs, keys: set<Handle>, h: Handle, ns: seq<Handle>)
    requires Keyed(d, keys) && h in keys && forall u | u in ns :: u in keys
    ensures LowFold(d, keys, h, ns) <= d.disc[h]
    ensures forall u | u in ns && d.parent[u] == Some(h) :: LowFold(d, keys, h, ns) <= d.low[u]
    ensures forall u | u in ns && d.parent[u] != Some(h) && d.parent[h] != Some(u) :: LowFold(d, keys, h, ns) <= d.disc[u]
    ensures || LowFold(d, keys, h, ns) == d.disc[h]
            || (exists u | u in ns && d.parent[u] == Some(h) :: LowFold(d, keys, h, ns) == d.low[u])
            || (exists u | u in ns && d.parent[u] != Some(h) && d.parent[h] != Some(u) :: LowFold(d, keys, h, ns) == d.disc[u])
  {
    if ns != [] {
      var ns', u := ns[..|ns| - 1], ns[|ns| - 1];
      assert ns == ns' + [u];
      LowFoldIsMin(d, keys, h, ns');
    }
  }

  /** `LowFold` reads only the entries of `h` and of the nodes in `ns` (their low values only for children of `h`). */
  lemma {:induction false} LowFoldFrame(d0: Dfs, d1: Dfs, keys: set<Handle>, h: Handle, ns: seq<Handle>)
    requires Keyed(d0, keys) && Keyed(d1, keys) && h in keys && forall u | u in ns :: u in keys
    requires d1.disc[h] == d0.disc[h] && d1.parent[h] == d0.parent[h]
    requires forall u | u in ns :: d1.disc[u] == d0.disc[u] && d1.parent[u] == d0.parent[u]
                                   && (d0.parent[u] == Some(h) ==> d1.low[u] == d0.low[u])
    ensures LowFold(d1, keys, h, ns) == LowFold(d0, keys, h, ns)
  {
    if ns != [] {
      LowFoldFrame(d0, d1, keys, h, ns[..|ns| - 1]);
    }
  }

  /**
   * The flag `dfs_vertex_cut` leaves on a finished `h`: set exactly when
   * `h` is a root with two tree children, or a non-root with a tree child
   * whose low value is not below the discovery time of `h`.
   */
  ghost predicate ArtExact(d: Dfs, keys: set<Handle>, h: Handle)
    requires Keyed(d, keys) && h in keys
  {
    if d.parent[h] == None then
      d.art[h] <==> exists c1, c2 | c1 in keys && c2 in keys && c1 != c2 :: d.parent[c1] == Some(h) && d.parent[c2] == Some(h)
    else
      d.art[h] <==> exists c | c in keys && d.parent[c] == Some(h) :: d.low[c] >= d.disc[h]
  }

  /**
   * `u` is `h` or lies below `h` in the parent forest: following parents
   * from `u`, each discovered before the last, reaches `h`.
   */
  ghost predicate Descends(d: Dfs, keys: set<Handle>, u: Handle, h: Handle)
    requires Keyed(d, keys)
    decreases if u in keys then d.disc[u] else -1
  {
    || u == h
    || (&& u in keys && d.parent[u].Some? && d.parent[u].value in keys
        && 0 <= d.disc[d.parent[u].value] < d.disc[u]
        && Descends(d, keys, d.parent[u].value, h))
  }

  /**
   * The depth-first shape at `h`: every neighbour discovered after `h`
   * lies below `h` in the parent forest.
   */
  ghost predicate DepthFirst(s: Snapshot, d: Dfs, keys: set<Handle>, h: Handle)
    requires Keyed(d, keys) && h in keys
  {
    forall u | u in Nbrs(s, h) && u in keys && d.disc[u] > d.disc[h] :: Descends(d, keys, u, h)
  }

  /** A chain of discovered nodes survives while their entries stay put. */
  lemma {:induction false} DescendsKept(d0: Dfs, d1: Dfs, keys: set<Handle>, x: Option<Handle>, u: Handle, h: Handle)
    requires Keyed(d0, keys) && Keyed(d1, keys) && FrozenBut(d0, d1, keys, x)
    requires u in keys && d0.disc[u] != -1 && Descends(d0, keys, u, h)
    ensures Descends(d1, keys, u, h)
    decreases d0.disc[u]
  {
    if u != h {
      var p := d0.parent[u].value;
      assert d1.parent[u] == d0.parent[u] && d1.disc[u] == d0.disc[u];
      DescendsKept(d0, d1, keys, x, p, h);
      assert d1.disc[p] == d0.disc[p];
    }
  }

  /**
   * A node whose search has returned: its neighbours are discovered, its
   * children finished, its low value is the `LowFold` of its neighbour list,
   * its flag is exact, and the neighbours discovered after it lie below it.
   */
  ghost predicate Settled(s: Snapshot, d: Dfs, keys: set<Handle>, done: set<Handle>, h: Handle)
    requires Keyed(d, keys) && h in keys
  {
    && (forall u | u in Nbrs(s, h) :: u in keys && d.disc[u] != -1)
    && (forall c | c in keys && d.parent[c] == Some(h) :: c in done && d.disc[c] != -1)
    && d.low[h] == LowFold(d, keys, h, Nbrs(s, h))
    && ArtExact(d, keys, h)
    && DepthFirst(s, d, keys, h)
  }

  /** Every finished node is discovered and settled. */
  ghost predicate Finished(s: Snapshot, d: Dfs, keys: set<Handle>, done: set<Handle>)
    requires Keyed(d, keys)
  {
    && done <= keys
    && forall h {:trigger Settled(s, d, keys, done, h)} | h in done ::
         d.disc[h] != -1 && Settled(s, d, keys, done, h)
  }

  /** Entries of nodes discovered in `d0` are the same in `d1`, but for the low value and flag of `x`. */
  ghost predicate FrozenBut(d0: Dfs, d1: Dfs, keys: set<Handle>, x: Option<Handle>)
    requires Keyed(d0, keys) && Keyed(d1, keys)
  {
    forall h {:trigger d1.disc[h]} {:trigger d1.low[h]} {:trigger d1.parent[h]} {:trigger d1.art[h]}
      | h in keys && d0.disc[h] != -1 ::
      d1.disc[h] == d0.disc[h] && d1.parent[h] == d0.parent[h] &&
      (Some(h) != x ==> d1.low[h] == d0.low[h] && d1.art[h] == d0.art[h])
  }

  /**
   * A settled node stays settled while discovered entries stay put (but
   * for the low value and flag of an unfinished `x`) and it gains no child.
   */
  lemma SettledKept(s: Snapshot, d0: Dfs, d1: Dfs, keys: set<Handle>, done0: set<Handle>, done1: set<Handle>,
                    x: Option<Handle>, h: Handle)
    requires Keyed(d0, keys) && Keyed(d1, keys) && h in keys && done0 <= done1
    requires h in done0 && d0.disc[h] != -1 && Settled(s, d0, keys, done0, h)
    requires FrozenBut(d0, d1, keys, x) && (x.Some? ==> x.value !in done0)
    requires forall c | c in keys && d1.parent[c] == Some(h) :: d0.parent[c] == Some(h)
    ensures Settled(s, d1, keys, done1, h)
  {
    forall c | c in keys && d0.parent[c] == Some(h)
      ensures d1.parent[c] == Some(h) && d1.low[c] == d0.low[c]
    {
      assert c in done0 && d0.disc[c] != -1;
    }
    LowFoldFrame(d0, d1, keys, h, Nbrs(s, h));
    assert forall c | c in keys :: d1.parent[c] == Some(h) <==> d0.parent[c] == Some(h);
    forall u | u in Nbrs(s, h) && u in keys && d1.disc[u] > d1.disc[h]
      ensures Descends(d1, keys, u, h)
    {
      assert d0.disc[u] != -1;
      DescendsKept(d0, d1, keys, x, u, h);
    }
  }

  /** `SettledKept` for every finished node, given that no finished node gains a child. */
  lemma FinishedKept(s: Snapshot, d0: Dfs, d1: Dfs, keys: set<Handle>, done0: set<Handle>, done1: set<Handle>,
                     x: Option<Handle>)
    requires Keyed(d0, keys) && Keyed(d1, keys) && done0 <= done1 && Finished(s, d0, keys, done0)
    requires FrozenBut(d0, d1, keys, x) && (x.Some? ==> x.value !in done0)
    requires forall c | c in keys && d1.parent[c] != d0.parent[c] :: d1.parent[c] == None || d1.parent[c].value !in done0
    ensures done0 <= keys
    ensures forall h {:trigger Settled(s, d1, keys, done1, h)} | h in done0 :: h in keys && d1.disc[h] != -1 && Settled(s, d1, keys, done1, h)
  {
    forall h: Handle | h in done0
      ensures h in keys && d1.disc[h] != -1 && Settled(s, d1, keys, done1, h)
    {
      assert h in keys;
      assert Settled(s, d0, keys, done0, h);
      SettledKept(s, d0, d1, keys, done0, done1, x, h);
    }
  }

  /**
   * The neighbour loop of `dfs_vertex_cut(v)` after the neighbours `seen`:
   * they are discovered and `v` is not among them; `low[v]` is their
   * `LowFold`; every child of `v` is among them and finished; `children`
   * counts the children, `first` and `second` being the first two; and the
   * flag on `v` is the root test on the count, or the non-root test on some
   * child.
   */
  ghost predicate Scanned(s: Snapshot, d: Dfs, keys: set<Handle>, done: set<Handle>, v: Handle, seen: seq<Handle>,
                          children: int, first: Option<Handle>, second: Option<Handle>)
    requires Keyed(d, keys) && v in keys
  {
    && (forall u | u in seen :: u in keys && u != v && d.disc[u] != -1)
    && d.low[v] == LowFold(d, keys, v, seen)
    && (forall c | c in keys && d.parent[c] == Some(v) :: c in seen && c in done && d.disc[c] != -1)
    && children >= 0
    && (children == 0 ==> forall c | c in keys :: d.parent[c] != Some(v))
    && (children == 1 ==> first.Some? && forall c | c in keys && d.parent[c] == Some(v) :: c == first.value)
    && (children >= 2 ==> first.Some? && second.Some? && first.value != second.value
                          && second.value in keys && d.parent[second.value] == Some(v))
    && (d.parent[v] == None ==> (d.art[v] <==> children >= 2))
    && (d.parent[v] != None ==> (d.art[v] <==> exists c | c in keys && d.parent[c] == Some(v) :: d.low[c] >= d.disc[v]))
  }

  /**
   * What a search from `v`, entered in `d0`, has done by `d`: every node it
   * discovered is reachable from `v` through nodes undiscovered in `d0`,
   * and all but `v` are finished with a parent discovered by the same
   * search; undiscovered nodes keep their parent.
   */
  ghost predicate NewSince(s: Snapshot, d0: Dfs, d: Dfs, keys: set<Handle>, done: set<Handle>, v: Handle)
    requires Keyed(d0, keys) && Keyed(d, keys)
  {
    && (forall h {:trigger Reaches(s, Pending(d0.disc, keys), v, h)} | h in keys && d0.disc[h] == -1 && d.disc[h] != -1 ::
          Reaches(s, Pending(d0.disc, keys), v, h))
    && (forall h {:trigger d.parent[h]} | h in keys && d0.disc[h] == -1 && d.disc[h] != -1 && h != v ::
          h in done && d.parent[h].Some? && d.parent[h].value in keys && d0.disc[d.parent[h].value] == -1)
    && (forall h | h in keys && d.disc[h] == -1 :: d.parent[h] == d0.parent[h])
  }

  /** `NewSince` reads only the discovery times and the parents. */
  lemma NewSinceTree(s: Snapshot, d0: Dfs, d: Dfs, d1: Dfs, keys: set<Handle>, done: set<Handle>, v: Handle)
    requires Keyed(d0, keys) && Keyed(d, keys) && Keyed(d1, keys) && d1.disc == d.disc && d1.parent == d.parent
    requires NewSince(s, d0, d, keys, done, v)
    ensures NewSince(s, d0, d1, keys, done, v)
  {
  }

  /** What holds once `v` is discovered at time `t`, before its neighbour loop. */
  lemma Started(s: Snapshot, d: Dfs, keys: set<Handle>, tr: Trace, v: Handle, t: int)
    requires Inv(s, d, keys, tr) && Finished(s, d, keys, tr.done) && v in keys && d.disc[v] == -1 && t >= 0
    ensures var d' := d.(disc := d.disc[v := t], low := d.low[v := t]);
            && Keyed(d', keys)
            && Finished(s, d', keys, tr.done)
            && Scanned(s, d', keys, tr.done, v, [], 0, None, None)
            && NewSince(s, d, d', keys, tr.done, v)
  {
    var d' := d.(disc := d.disc[v := t], low := d.low[v := t]);
    assert Keyed(d', keys);
    FinishedKept(s, d, d', keys, tr.done, tr.done, None);
    assert NodeOk(s, d, keys, tr, v);
    forall c | c in keys
      ensures d'.parent[c] != Some(v)
    {
      assert NodeOk(s, d, keys, tr, c);
    }
    ReachSelf(s, Pending(d.disc, keys), v);
  }

  /** `Pending` only shrinks while discovered entries stay put. */
  lemma PendingSub(d0: Dfs, d1: Dfs, keys: set<Handle>)
    requires Keyed(d0, keys) && Keyed(d1, keys) && FrozenBut(d0, d1, keys, None)
    ensures Pending(d1.disc, keys) <= Pending(d0.disc, keys)
  {
  }

  /**
   * After the tree edge to `u`: the search from `v`, entered in `d0`, still
   * accounts for every node discovered, those of the search from `u`
   * (entered in `d1`, after `parent[u] = v`) included.
   */
  lemma NewSinceChild(s: Snapshot, d0: Dfs, d: Dfs, d1: Dfs, d2: Dfs, keys: set<Handle>, done: set<Handle>,
                      done2: set<Handle>, v: Handle, u: Handle)
    requires Keyed(d0, keys) && Keyed(d, keys) && Keyed(d1, keys) && Keyed(d2, keys)
    requires NewSince(s, d0, d, keys, done, v) && FrozenBut(d0, d, keys, None)
    requires v in keys && u in keys && u in Nbrs(s, v) && d0.disc[v] == -1 && d.disc[v] != -1 && d.disc[u] == -1
    requires d1 == d.(parent := d.parent[u := Some(v)])
    requires FrozenBut(d1, d2, keys, None) && NewSince(s, d1, d2, keys, done2, u) && done <= done2
    requires d2.parent[u] == Some(v) && u in done2 && d2.disc[u] != -1
    ensures NewSince(s, d0, d2, keys, done2, v)
  {
    var P0, P1 := Pending(d0.disc, keys), Pending(d1.disc, keys);
    PendingSub(d0, d, keys);
    assert P1 == Pending(d.disc, keys);
    assert u in P0;
    forall h | h in keys && d0.disc[h] == -1 && d2.disc[h] != -1
      ensures Reaches(s, P0, v, h)
    {
      if d.disc[h] == -1 {
        assert d1.disc[h] == -1;
        ReachWider(s, P1, P0, u, h);
        ReachPrepend(s, P0, v, u, h);
      }
    }
    forall h | h in keys && d0.disc[h] == -1 && d2.disc[h] != -1 && h != v
      ensures h in done2 && d2.parent[h].Some? && d2.parent[h].value in keys && d0.disc[d2.parent[h].value] == -1
    {
      ParentSinceChild(d0, d, d1, d2, keys, done, done2, v, u, h);
    }
    forall h | h in keys && d2.disc[h] == -1
      ensures d2.parent[h] == d0.parent[h]
    {
      assert d1.disc[h] == -1 && h != u;
    }
  }

  /** The parent half of `NewSinceChild`, for one node `h` discovered since `d0`. */
  lemma ParentSinceChild(d0: Dfs, d: Dfs, d1: Dfs, d2: Dfs, keys: set<Handle>, done: set<Handle>,
                         done2: set<Handle>, v: Handle, u: Handle, h: Handle)
    requires Keyed(d0, keys) && Keyed(d, keys) && Keyed(d1, keys) && Keyed(d2, keys)
    requires forall h {:trigger d.parent[h]} | h in keys && d0.disc[h] == -1 && d.disc[h] != -1 && h != v ::
               h in done && d.parent[h].Some? && d.parent[h].value in keys && d0.disc[d.parent[h].value] == -1
    requires forall h {:trigger d2.parent[h]} | h in keys && d1.disc[h] == -1 && d2.disc[h] != -1 && h != u ::
               h in done2 && d2.parent[h].Some? && d2.parent[h].value in keys && d1.disc[d2.parent[h].value] == -1
    requires FrozenBut(d0, d, keys, None) && FrozenBut(d1, d2, keys, None) && done <= done2
    requires v in keys && u in keys && d0.disc[v] == -1 && d.disc[u] == -1
    requires d1 == d.(parent := d.parent[u := Some(v)])
    requires d2.parent[u] == Some(v) && u in done2
    requires h in keys && d0.disc[h] == -1 && d2.disc[h] != -1 && h != v
    ensures h in done2 && d2.parent[h].Some? && d2.parent[h].value in keys && d0.disc[d2.parent[h].value] == -1
  {
    if h == u {
    } else if d.disc[h] != -1 {
      assert d2.parent[h] == d1.parent[h] == d.parent[h];
    } else {
      assert d1.disc[h] == -1;
      var p := d2.parent[h].value;
      assert d1.disc[p] == -1;
      assert d.disc[p] == -1;
    }
  }

  /** The tree edge to `u` changes the children of `v` by adding `u` and no other node's. */
  lemma TreeChildren(s: Snapshot, d: Dfs, d1: Dfs, d2: Dfs, keys: set<Handle>, done2: set<Handle>, v: Handle, u: Handle)
    requires Keyed(d, keys) && Keyed(d1, keys) && Keyed(d2, keys) && v in keys && u in keys
    requires d.disc[v] != -1 && d.disc[u] == -1
    requires forall c | c in keys && d.parent[c] == Some(v) :: d.disc[c] != -1
    requires d1 == d.(parent := d.parent[u := Some(v)])
    requires FrozenBut(d1, d2, keys, None) && NewSince(s, d1, d2, keys, done2, u)
    requires d2.parent[u] == Some(v)
    ensures forall c | c in keys :: d2.parent[c] == Some(v) <==> c == u || d.parent[c] == Some(v)
  {
    forall c | c in keys
      ensures d2.parent[c] == Some(v) <==> c == u || d.parent[c] == Some(v)
    {
      if c != u && d.disc[c] == -1 && d2.disc[c] != -1 {
        assert d1.disc[d2.parent[c].value] == -1;
      }
    }
  }

  /**
   * How the state `d4` after the tree edge to `u` relates to the state `d`
   * before it: `d1` is `d` with `parent[u] = v`, the search from `u` took
   * `d1` to `d2`, and `AfterChild` took `d2` to `d4`. The children of `v`
   * gain `u`; the entries of `v`, of the nodes in `seen` and of the former
   * children are as before, but for `low[v]` and the flag on `v`.
   */
  lemma TreeFrame(s: Snapshot, d: Dfs, d1: Dfs, d2: Dfs, d4: Dfs, keys: set<Handle>, done2: set<Handle>,
                  v: Handle, u: Handle, seen: seq<Handle>, children: int)
    requires Keyed(d, keys) && Keyed(d1, keys) && Keyed(d2, keys) && Keyed(d4, keys) && v in keys && u in keys
    requires d.disc[v] != -1 && d.disc[u] == -1 && u != v
    requires forall w | w in seen :: w in keys && w != v && d.disc[w] != -1
    requires forall c | c in keys && d.parent[c] == Some(v) :: c in seen
    requires d1 == d.(parent := d.parent[u := Some(v)])
    requires FrozenBut(d1, d2, keys, None) && NewSince(s, d1, d2, keys, done2, u)
    requires d2.parent[u] == Some(v) && d2.disc[u] != -1
    requires Rejoined(d2, d4, v, u, children + 1)
    ensures forall c | c in keys :: d4.parent[c] == Some(v) <==> c == u || d.parent[c] == Some(v)
    ensures forall w | w in seen :: d4.disc[w] == d.disc[w] && d4.parent[w] == d.parent[w]
                                   && (d.parent[w] == Some(v) ==> d4.low[w] == d.low[w])
    ensures forall c | c in keys && d.parent[c] == Some(v) :: d4.disc[c] == d.disc[c] && d4.low[c] == d.low[c]
    ensures d4.parent[v] == d.parent[v] && d4.disc[v] == d.disc[v] && d4.parent[u] == Some(v) && d4.disc[u] != -1
    ensures d4.low[v] == Min(d.low[v], d4.low[u])
    ensures d4.art[v] == (d.art[v] || (d.parent[v] == None && children + 1 > 1)
                                   || (d.parent[v] != None && d4.low[u] >= d.disc[v]))
  {
    TreeChildren(s, d, d1, d2, keys, done2, v, u);
    forall w | w in seen
      ensures d4.disc[w] == d.disc[w] && d4.parent[w] == d.parent[w]
      ensures d.parent[w] == Some(v) ==> d4.low[w] == d.low[w]
    {
      assert d1.disc[w] != -1;
    }
    assert d1.disc[v] != -1;
    forall c | c in keys && d.parent[c] == Some(v)
      ensures d4.disc[c] == d.disc[c] && d4.low[c] == d.low[c]
    {
      assert d1.disc[c] != -1;
    }
  }

  /**
   * The loop state after the tree edge to `u`, in terms of how the state
   * `d4` after it relates to the state `d` before it (`TreeFrame`).
   */
  lemma TreeScanned(s: Snapshot, d: Dfs, d4: Dfs, keys: set<Handle>, done: set<Handle>, done2: set<Handle>,
                    v: Handle, u: Handle, seen: seq<Handle>, children: int, first: Option<Handle>, second: Option<Handle>)
    requires Keyed(d, keys) && Keyed(d4, keys) && v in keys && u in keys
    requires Scanned(s, d, keys, done, v, seen, children, first, second)
    requires children > 0 ==> first.Some? && first.value in keys && d.parent[first.value] == Some(v)
    requires d.disc[u] == -1 && u != v && done <= done2 && u in done2
    requires forall c | c in keys :: d4.parent[c] == Some(v) <==> c == u || d.parent[c] == Some(v)
    requires forall w | w in seen :: d4.disc[w] == d.disc[w] && d4.parent[w] == d.parent[w]
                                    && (d.parent[w] == Some(v) ==> d4.low[w] == d.low[w])
    requires forall c | c in keys && d.parent[c] == Some(v) :: d4.disc[c] == d.disc[c] && d4.low[c] == d.low[c]
    requires d4.parent[v] == d.parent[v] && d4.disc[v] == d.disc[v] && d4.parent[u] == Some(v) && d4.disc[u] != -1
    requires d4.low[v] == Min(d.low[v], d4.low[u])
    requires d4.art[v] == (d.art[v] || (d.parent[v] == None && children + 1 > 1)
                                    || (d.parent[v] != None && d4.low[u] >= d.disc[v]))
    ensures Scanned(s, d4, keys, done2, v, seen + [u], children + 1,
                    if children > 0 then first else Some(u), if children == 1 then Some(u) else second)
  {
    LowFoldFrame(d, d4, keys, v, seen);
    TreeLow(d, d4, keys, v, u, seen);
    TreeFlag(d, d4, keys, v, u);
  }

  /**
   * The non-root flag test after the tree edge to `u`: `v` is flagged
   * exactly when some child, one from before or `u`, has a low value not
   * below the discovery time of `v`.
   */
  lemma TreeFlag(d: Dfs, d4: Dfs, keys: set<Handle>, v: Handle, u: Handle)
    requires Keyed(d, keys) && Keyed(d4, keys) && v in keys && u in keys
    requires d.parent[v] != None ==>
               (d.art[v] <==> exists c | c in keys && d.parent[c] == Some(v) :: d.low[c] >= d.disc[v])
    requires forall c | c in keys :: d4.parent[c] == Some(v) <==> c == u || d.parent[c] == Some(v)
    requires forall c | c in keys && d.parent[c] == Some(v) :: d4.low[c] == d.low[c]
    requires d4.parent[v] == d.parent[v] && d4.disc[v] == d.disc[v]
    requires d.parent[v] != None ==> d4.art[v] == (d.art[v] || d4.low[u] >= d.disc[v])
    ensures d4.parent[v] != None ==>
              (d4.art[v] <==> exists c | c in keys && d4.parent[c] == Some(v) :: d4.low[c] >= d4.disc[v])
  {
    if d4.parent[v] != None {
      if d4.art[v] {
        if d.art[v] {
          var c :| c in keys && d.parent[c] == Some(v) && d.low[c] >= d.disc[v];
          assert d4.parent[c] == Some(v) && d4.low[c] >= d4.disc[v];
        } else {
          assert d4.parent[u] == Some(v) && d4.low[u] >= d4.disc[v];
        }
      }
      if exists c | c in keys && d4.parent[c] == Some(v) :: d4.low[c] >= d4.disc[v] {
        var c :| c in keys && d4.parent[c] == Some(v) && d4.low[c] >= d4.disc[v];
        if c != u {
          assert d.parent[c] == Some(v) && d.low[c] >= d.disc[v];
        }
      }
    }
  }

  /** `LowFold` over `ns + [u]` takes in `u` after the nodes of `ns`. */
  lemma LowFoldSnoc(d: Dfs, keys: set<Handle>, h: Handle, ns: seq<Handle>, u: Handle)
    requires Keyed(d, keys) && h in keys && u in keys && forall w | w in ns :: w in keys
    ensures LowFold(d, keys, h, ns + [u]) ==
              if d.parent[u] == Some(h) then Min(LowFold(d, keys, h, ns), d.low[u])
              else if d.parent[h] == Some(u) then LowFold(d, keys, h, ns)
              else Min(LowFold(d, keys, h, ns), d.disc[u])
  {
    assert (ns + [u])[..|ns|] == ns;
  }

  /** After the tree edge to `u`, `low[v] = min(low[v], low[u])` is the `LowFold` of `seen + [u]`. */
  lemma TreeLow(d: Dfs, d4: Dfs, keys: set<Handle>, v: Handle, u: Handle, seen: seq<Handle>)
    requires Keyed(d, keys) && Keyed(d4, keys) && v in keys && u in keys && forall w | w in seen :: w in keys
    requires d.low[v] == LowFold(d, keys, v, seen) && LowFold(d4, keys, v, seen) == LowFold(d, keys, v, seen)
    requires d4.parent[u] == Some(v) && d4.low[v] == Min(d.low[v], d4.low[u])
    ensures d4.low[v] == LowFold(d4, keys, v, seen + [u])
  {
    LowFoldSnoc(d4, keys, v, seen, u);
  }

  /** The loop state after a back edge to the discovered `u`, not the parent of `v`: `low[v] = min(low[v], discovery[u])`. */
  lemma BackScanned(s: Snapshot, d: Dfs, keys: set<Handle>, tr: Trace, v: Handle, u: Handle, seen: seq<Handle>,
                    children: int, first: Option<Handle>, second: Option<Handle>)
    requires Inv(s, d, keys, tr) && v in keys && u in keys && u != v
    requires d.disc[v] != -1 && d.disc[u] != -1 && Some(u) != d.parent[v]
    requires Scanned(s, d, keys, tr.done, v, seen, children, first, second)
    ensures Scanned(s, d.(low := d.low[v := Min(d.low[v], d.disc[u])]), keys, tr.done, v, seen + [u],
                    children, first, second)
  {
    var d' := d.(low := d.low[v := Min(d.low[v], d.disc[u])]);
    assert Keyed(d', keys);
    LowFoldFrame(d, d', keys, v, seen);
    assert (seen + [u])[..|seen|] == seen;
    if d.parent[u] == Some(v) {
      LowFoldIsMin(d, keys, v, seen);
      assert NodeOk(s, d, keys, tr, u);
    }
  }

  /** The loop state after the parent `u` of `v` is skipped. */
  lemma SkipScanned(s: Snapshot, d: Dfs, keys: set<Handle>, tr: Trace, v: Handle, u: Handle, seen: seq<Handle>,
                    children: int, first: Option<Handle>, second: Option<Handle>)
    requires Inv(s, d, keys, tr) && v in keys && u in keys && u != v
    requires d.disc[v] != -1 && d.disc[u] != -1 && Some(u) == d.parent[v]
    requires Scanned(s, d, keys, tr.done, v, seen, children, first, second)
    ensures Scanned(s, d, keys, tr.done, v, seen + [u], children, first, second)
  {
    assert NodeOk(s, d, keys, tr, v) && NodeOk(s, d, keys, tr, u);
    assert d.parent[u] != Some(v);
    assert (seen + [u])[..|seen|] == seen;
  }

  /** At the end of the neighbour loop, `v` is settled. */
  lemma ScannedSettles(s: Snapshot, d: Dfs, keys: set<Handle>, done: set<Handle>, v: Handle,
                       children: int, first: Option<Handle>, second: Option<Handle>)
    requires Keyed(d, keys) && v in keys && forall u | u in Nbrs(s, v) :: u in keys
    requires Scanned(s, d, keys, done, v, Nbrs(s, v), children, first, second)
    requires children > 0 ==> first.Some? && first.value in keys && d.parent[first.value] == Some(v)
    requires DepthFirst(s, d, keys, v)
    ensures Settled(s, d, keys, done + {v}, v)
  {
    if d.parent[v] == None && children < 2 {
      if c1, c2 :| c1 in keys && c2 in keys && c1 != c2 && d.parent[c1] == Some(v) && d.parent[c2] == Some(v) {
        assert c1 == first.value && c2 == first.value;
      }
    }
  }

  /**
   * Everything reachable from `v` through nodes undiscovered in `d0` is
   * discovered in `d1`, once the nodes discovered since are finished.
   */
  lemma CallCloses(s: Snapshot, d0: Dfs, d1: Dfs, keys: set<Handle>, done: set<Handle>, v: Handle)
    requires Keyed(d0, keys) && Keyed(d1, keys) && Finished(s, d1, keys, done)
    requires forall h | h in keys && d0.disc[h] == -1 && d1.disc[h] != -1 :: h in done
    requires v in keys && d0.disc[v] == -1 && d1.disc[v] != -1
    ensures forall h | Reaches(s, Pending(d0.disc, keys), v, h) :: h in keys && d0.disc[h] == -1 && d1.disc[h] != -1
  {
    var P0 := Pending(d0.disc, keys);
    var r := set h | h in keys && d0.disc[h] == -1 && d1.disc[h] != -1;
    forall x, w | x in r && w in Nbrs(s, x) && w in P0
      ensures w in r
    {
      assert Settled(s, d1, keys, done, x);
    }
    ClosedHoldsReachable(s, P0, r, v);
  }

  // ---------------------------------------------------------------------
  // The search

  /**
   * `dfs_vertex_cut` from an undiscovered `v` at time `time`: `v` is
   * stamped `time` and the search hands out later times only. Entries of
   * nodes discovered before stay as they were. The nodes the call
   * discovers are exactly those reachable from `v` through undiscovered
   * nodes; all of them are finished on return. `low[v]` is the `LowFold`
   * of the neighbour list of `v`, and its flag is exact.
   */
  method DfsVertexCut(g: Graph, v: Handle, d: Dfs, time: int, ghost s: Snapshot, ghost keys: set<Handle>, ghost tr: Trace)
      returns (d': Dfs, time': int, ghost tr': Trace)
    requires s == g.Snap() && keys == LiveSet(s) && Linked(s) && v in keys
    requires Inv(s, d, keys, tr) && Finished(s, d, keys, tr.done) && d.disc[v] == -1 && time == |tr.order|
    ensures Inv(s, d', keys, tr') && time' == |tr'.order| && time' > time
    ensures d'.disc[v] == time && d'.parent[v] == d.parent[v] && v in tr'.done
    ensures Grew(d, d', keys, tr.done, tr'.done) && Finished(s, d', keys, tr'.done)
    ensures d'.low[v] == LowFold(d', keys, v, Nbrs(s, v)) && ArtExact(d', keys, v)
    ensures NewSince(s, d, d', keys, tr'.done, v)
    ensures forall h | h in keys :: d.disc[h] == -1 && d'.disc[h] != -1 <==> Reaches(s, Pending(d.disc, keys), v, h)
    decreases Pending(d.disc, keys), 1
  {
    assert NodeOk(s, d, keys, tr, v);
    DiscoverKeeps(s, d, keys, tr, v);
    Started(s, d, keys, tr, v, time);
    d' := d.(disc := d.disc[v := time], low := d.low[v := time]);
    time' := time + 1;
    tr' := tr.(order := tr.order + [v]);
    var children;
    ghost var first, second;
    d', time', children, first, second, tr' := ScanNeighbours(g, v, d', time', s, keys, d, tr, tr');
    Finish(s, d, d', keys, tr, tr', v, children, first, second);
    tr' := tr'.(done := tr'.done + {v});
  }

  /**
   * The loop of `dfs_vertex_cut(v)` over the neighbour list of `v`, entered
   * in `d0`: every neighbour is scanned, counting the tree children.
   */
  method ScanNeighbours(g: Graph, v: Handle, d: Dfs, time: int, ghost s: Snapshot, ghost keys: set<Handle>,
                        ghost d0: Dfs, ghost tr0: Trace, ghost tr: Trace)
      returns (d': Dfs, time': int, children: int, ghost first: Option<Handle>, ghost second: Option<Handle>,
               ghost tr': Trace)
    requires s == g.Snap() && keys == LiveSet(s) && Linked(s)
    requires Visiting(s, d0, d, keys, tr0, tr, v, time, 0, None) && d0.disc[v] == -1
    requires Finished(s, d, keys, tr.done) && NewSince(s, d0, d, keys, tr.done, v)
    requires Scanned(s, d, keys, tr.done, v, [], 0, None, None)
    ensures Visiting(s, d0, d', keys, tr0, tr', v, time', children, first)
    ensures Finished(s, d', keys, tr'.done) && NewSince(s, d0, d', keys, tr'.done, v)
    ensures Scanned(s, d', keys, tr'.done, v, Nbrs(s, v), children, first, second)
    decreases Pending(d0.disc, keys), 0
  {
    d', time', tr' := d, time, tr;
    children := 0;
    first, second := None, None;
    var nbrs := g.store[v].neighbors;
    assert nbrs == Nbrs(s, v);
    for i := 0 to |nbrs|
      invariant Visiting(s, d0, d', keys, tr0, tr', v, time', children, first)
      invariant Finished(s, d', keys, tr'.done) && NewSince(s, d0, d', keys, tr'.done, v)
      invariant Scanned(s, d', keys, tr'.done, v, nbrs[..i], children, first, second)
    {
      PendingShrinks(d0, d', keys, v);
      SeenStep(nbrs, i);
      d', time', children, first, second, tr' :=
        EdgeStep(g, v, nbrs[i], d', time', children, s, keys, d0, tr0, tr', first, second, nbrs[..i]);
    }
    SeenAll(nbrs);
  }

  /** The neighbours seen when the loop ends. */
  lemma SeenAll(ns: seq<Handle>)
    ensures ns[..|ns|] == ns
  {
  }

  /** The neighbours seen after step `i` of the loop. */
  lemma SeenStep(ns: seq<Handle>, i: int)
    requires 0 <= i < |ns|
    ensures ns[..i + 1] == ns[..i] + [ns[i]]
  {
    assert ns[..i + 1] == ns[..i] + [ns[i]];
  }

  /** The return of `dfs_vertex_cut(v)`: `v` joins the finished nodes, settled. */
  lemma Finish(s: Snapshot, d0: Dfs, d: Dfs, keys: set<Handle>, tr0: Trace, tr: Trace, v: Handle,
               children: int, first: Option<Handle>, second: Option<Handle>)
    requires Linked(s) && keys == LiveSet(s) && Inv(s, d0, keys, tr0)
    requires Visiting(s, d0, d, keys, tr0, tr, v, |tr.order|, children, first)
    requires Finished(s, d, keys, tr.done) && NewSince(s, d0, d, keys, tr.done, v)
    requires Scanned(s, d, keys, tr.done, v, Nbrs(s, v), children, first, second)
    ensures Inv(s, d, keys, tr.(done := tr.done + {v}))
    ensures Grew(d0, d, keys, tr0.done, tr.done + {v}) && Finished(s, d, keys, tr.done + {v})
    ensures d.low[v] == LowFold(d, keys, v, Nbrs(s, v)) && ArtExact(d, keys, v)
    ensures NewSince(s, d0, d, keys, tr.done + {v}, v)
    ensures forall h | h in keys :: d0.disc[h] == -1 && d.disc[h] != -1 <==> Reaches(s, Pending(d0.disc, keys), v, h)
  {
    FinishKeeps(s, d, keys, tr, v);
    GrewFinish(d0, d, keys, tr0.done, tr.done, v);
    FinishDepthFirst(s, d0, d, keys, tr0, tr, v, children, first, second);
    FinishSettles(s, d, keys, tr.done, v, children, first, second);
    FinishScope(s, d0, d, keys, tr.done, v);
  }

  /**
   * At the return of `dfs_vertex_cut(v)`, entered in `d0`: a neighbour
   * discovered after `v` was discovered by this call, so it lies below `v`.
   */
  lemma FinishDepthFirst(s: Snapshot, d0: Dfs, d: Dfs, keys: set<Handle>, tr0: Trace, tr: Trace, v: Handle,
                         children: int, first: Option<Handle>, second: Option<Handle>)
    requires Inv(s, d0, keys, tr0) && Visiting(s, d0, d, keys, tr0, tr, v, |tr.order|, children, first)
    requires NewSince(s, d0, d, keys, tr.done, v)
    requires Scanned(s, d, keys, tr.done, v, Nbrs(s, v), children, first, second)
    ensures DepthFirst(s, d, keys, v)
  {
    forall u | u in Nbrs(s, v) && u in keys && d.disc[u] > d.disc[v]
      ensures Descends(d, keys, u, v)
    {
      assert NodeOk(s, d0, keys, tr0, u);
      assert d0.disc[u] == -1;
      DescendsSince(s, d0, d, keys, tr, v, u);
    }
  }

  /** A node discovered by the search from `v` lies below `v`. */
  lemma {:induction false} DescendsSince(s: Snapshot, d0: Dfs, d: Dfs, keys: set<Handle>, tr: Trace, v: Handle, u: Handle)
    requires Keyed(d0, keys) && Inv(s, d, keys, tr) && NewSince(s, d0, d, keys, tr.done, v)
    requires u in keys && d0.disc[u] == -1 && d.disc[u] != -1
    ensures Descends(d, keys, u, v)
    decreases d.disc[u]
  {
    if u != v {
      assert d.parent[u].Some?;
      var p := d.parent[u].value;
      assert NodeOk(s, d, keys, tr, u);
      assert NodeOk(s, d, keys, tr, p);
      DescendsSince(s, d0, d, keys, tr, v, p);
    }
  }

  /** Growth from `d0` survives `v`, undiscovered in `d0`, joining the finished nodes. */
  lemma GrewFinish(d0: Dfs, d: Dfs, keys: set<Handle>, done0: set<Handle>, done: set<Handle>, v: Handle)
    requires Keyed(d0, keys) && Keyed(d, keys) && v in keys && d0.disc[v] == -1
    requires Grew(d0, d, keys, done0, done)
    ensures Grew(d0, d, keys, done0, done + {v})
  {
  }

  /** At the return of `dfs_vertex_cut(v)` the finished nodes, `v` now among them, are settled. */
  lemma FinishSettles(s: Snapshot, d: Dfs, keys: set<Handle>, done: set<Handle>, v: Handle,
                      children: int, first: Option<Handle>, second: Option<Handle>)
    requires Linked(s) && keys == LiveSet(s) && Keyed(d, keys) && v in keys && d.disc[v] != -1
    requires Finished(s, d, keys, done)
    requires Scanned(s, d, keys, done, v, Nbrs(s, v), children, first, second)
    requires children > 0 ==> first.Some? && first.value in keys && d.parent[first.value] == Some(v)
    requires DepthFirst(s, d, keys, v)
    ensures Finished(s, d, keys, done + {v}) && Settled(s, d, keys, done + {v}, v)
  {
    ScannedSettles(s, d, keys, done, v, children, first, second);
    FinishedKept(s, d, d, keys, done, done + {v}, None);
    forall h | h in done + {v}
      ensures h in keys && d.disc[h] != -1 && Settled(s, d, keys, done + {v}, h)
    {
      if h != v {
        assert h in done && Settled(s, d, keys, done + {v}, h);
      }
    }
  }

  /**
   * At the return of `dfs_vertex_cut(v)`, entered in `d0`: the nodes the
   * call discovered are finished and are exactly those reachable from `v`
   * through nodes undiscovered in `d0`.
   */
  lemma FinishScope(s: Snapshot, d0: Dfs, d: Dfs, keys: set<Handle>, done: set<Handle>, v: Handle)
    requires Keyed(d0, keys) && Keyed(d, keys) && v in keys && d0.disc[v] == -1 && d.disc[v] != -1
    requires NewSince(s, d0, d, keys, done, v) && Finished(s, d, keys, done + {v})
    ensures NewSince(s, d0, d, keys, done + {v}, v)
    ensures forall h | h in keys :: d0.disc[h] == -1 && d.disc[h] != -1 <==> Reaches(s, Pending(d0.disc, keys), v, h)
  {
    CallCloses(s, d0, d, keys, done + {v}, v);
  }

  /**
   * One neighbour `u` of `v` in the loop of `dfs_vertex_cut`: an
   * undiscovered `u` is a tree edge; for a discovered `u` other than the
   * parent of `v`, `low[v] = min(low[v], discovery[u])`; the parent is
   * skipped.
   */
  method EdgeStep(g: Graph, v: Handle, u: Handle, d: Dfs, time: int, children: int,
                  ghost s: Snapshot, ghost keys: set<Handle>, ghost d0: Dfs, ghost tr0: Trace, ghost tr: Trace,
                  ghost first: Option<Handle>, ghost second: Option<Handle>, ghost seen: seq<Handle>)
      returns (d': Dfs, time': int, children': int, ghost first': Option<Handle>, ghost second': Option<Handle>,
               ghost tr': Trace)
    requires s == g.Snap() && keys == LiveSet(s) && Linked(s) && u in Nbrs(s, v)
    requires Visiting(s, d0, d, keys, tr0, tr, v, time, children, first)
    requires Finished(s, d, keys, tr.done) && NewSince(s, d0, d, keys, tr.done, v)
    requires Scanned(s, d, keys, tr.done, v, seen, children, first, second)
    ensures Visiting(s, d0, d', keys, tr0, tr', v, time', children', first')
    ensures Finished(s, d', keys, tr'.done) && NewSince(s, d0, d', keys, tr'.done, v)
    ensures Scanned(s, d', keys, tr'.done, v, seen + [u], children', first', second')
    ensures d.disc[u] == -1 ==>
              && children' == children + 1 && d'.parent[u] == Some(v) && d'.low[v] == Min(d.low[v], d'.low[u])
              && d'.art[v] == (d.art[v] || (d.parent[v] == None && children + 1 > 1)
                                        || (d.parent[v] != None && d'.low[u] >= d.disc[v]))
    ensures d.disc[u] != -1 && Some(u) != d.parent[v] ==>
              children' == children && d' == d.(low := d.low[v := Min(d.low[v], d.disc[u])])
    ensures d.disc[u] != -1 && Some(u) == d.parent[v] ==> children' == children && d' == d
    decreases Pending(d.disc, keys), 3
  {
    assert u in keys;
    if d.disc[u] == -1 {
      children' := children + 1;
      first' := if children > 0 then first else Some(u);
      second' := if children == 1 then Some(u) else second;
      d', time', tr' := TreeEdge(g, v, u, d, time, children, s, keys, d0, tr0, tr, first, second, seen);
    } else if Some(u) != d.parent[v] {
      BackEdge(s, d0, d, keys, tr0, tr, v, u, time, children, first, second, seen);
      d' := d.(low := d.low[v := Min(d.low[v], d.disc[u])]);
      time', children', first', second', tr' := time, children, first, second, tr;
    } else {
      SkipScanned(s, d, keys, tr, v, u, seen, children, first, second);
      d', time', children', first', second', tr' := d, time, children, first, second, tr;
    }
  }

  /** A back edge to the discovered `u`, not the parent of `v`, keeps the loop state: `low[v] = min(low[v], discovery[u])`. */
  lemma BackEdge(s: Snapshot, d0: Dfs, d: Dfs, keys: set<Handle>, tr0: Trace, tr: Trace, v: Handle, u: Handle,
                 time: int, children: int, first: Option<Handle>, second: Option<Handle>, seen: seq<Handle>)
    requires keys == LiveSet(s) && Linked(s) && u in Nbrs(s, v)
    requires Visiting(s, d0, d, keys, tr0, tr, v, time, children, first)
    requires Finished(s, d, keys, tr.done) && NewSince(s, d0, d, keys, tr.done, v)
    requires Scanned(s, d, keys, tr.done, v, seen, children, first, second)
    requires u in keys && d.disc[u] != -1 && Some(u) != d.parent[v]
    ensures var d' := d.(low := d.low[v := Min(d.low[v], d.disc[u])]);
            && Visiting(s, d0, d', keys, tr0, tr, v, time, children, first)
            && Finished(s, d', keys, tr.done) && NewSince(s, d0, d', keys, tr.done, v)
            && Scanned(s, d', keys, tr.done, v, seen + [u], children, first, second)
  {
    assert NodeOk(s, d, keys, tr, u);
    LowerVisiting(s, d0, d, keys, tr0, tr, v, time, children, first, d.disc[u]);
    BackScanned(s, d, keys, tr, v, u, seen, children, first, second);
    LowerFinished(s, d, keys, tr.done, v, Min(d.low[v], d.disc[u]));
  }

  /**
   * The state after the search from the tree child `u` of `v` returned:
   * the loop state holds with one more child, and `u` is a finished child
   * of `v` with a low value of its own.
   */
  lemma ChildReturned(s: Snapshot, d0: Dfs, d: Dfs, d2: Dfs, keys: set<Handle>, tr0: Trace, tr: Trace, tr2: Trace,
                      v: Handle, u: Handle, time: int, time2: int, children: int, first: Option<Handle>)
    requires Visiting(s, d0, d, keys, tr0, tr, v, time, children, first) && u in keys && d.disc[u] == -1
    requires Keyed(d.(parent := d.parent[u := Some(v)]), keys)
    requires Inv(s, d2, keys, tr2) && time2 == |tr2.order| && time2 > time
    requires d2.parent[u] == Some(v) && u in tr2.done
    requires Grew(d.(parent := d.parent[u := Some(v)]), d2, keys, tr.done, tr2.done)
    ensures Visiting(s, d0, d2, keys, tr0, tr2, v, time2, children + 1, if children > 0 then first else Some(u))
    ensures ChildOf(d2, tr2.done, u, v) && (children > 0 ==> first.value != u)
    ensures d2.art[v] == d.art[v] && d2.parent[v] == d.parent[v] && d2.disc[v] == d.disc[v] && d2.low[v] == d.low[v]
    ensures u != v && d2.low[u] >= 0
    ensures tr.done <= tr2.done && FrozenBut(d.(parent := d.parent[u := Some(v)]), d2, keys, None)
    ensures children > 0 ==> first.Some? && first.value in keys && d.parent[first.value] == Some(v)
  {
    assert NodeOk(s, d2, keys, tr2, u);
    AdoptGrew(d0, d, d2, keys, tr0.done, tr.done, tr2.done, u, v);
    if children > 0 {
      ChildKept(s, d, d2, keys, tr, tr2.done, first.value, v);
    }
  }

  /** A new low value for the unfinished `v` leaves the finished nodes settled. */
  lemma LowerFinished(s: Snapshot, d: Dfs, keys: set<Handle>, done: set<Handle>, v: Handle, x: int)
    requires Keyed(d, keys) && v in keys && v !in done && Finished(s, d, keys, done)
    ensures Keyed(d.(low := d.low[v := x]), keys) && Finished(s, d.(low := d.low[v := x]), keys, done)
  {
    var d' := d.(low := d.low[v := x]);
    FinishedKept(s, d, d', keys, done, done, Some(v));
    forall h | h in done
      ensures h in keys && d'.disc[h] != -1 && Settled(s, d', keys, done, h)
    {
      assert Settled(s, d', keys, done, h);
    }
  }

  /** `low[v] = min(low[v], x)` for some `x >= 0` keeps the loop state. */
  lemma LowerVisiting(s: Snapshot, d0: Dfs, d: Dfs, keys: set<Handle>, tr0: Trace, tr: Trace,
                      v: Handle, time: int, children: int, first: Option<Handle>, x: int)
    requires Visiting(s, d0, d, keys, tr0, tr, v, time, children, first) && x >= 0
    ensures Visiting(s, d0, d.(low := d.low[v := Min(d.low[v], x)]), keys, tr0, tr, v, time, children, first)
  {
    LowerKeeps(s, d, keys, tr, v, x);
    LowerGrew(d0, d, keys, tr0.done, tr.done, v, Min(d.low[v], x));
  }

  /** Flagging `v` for a reason `w` keeps the loop state. */
  lemma FlagVisiting(s: Snapshot, d0: Dfs, d: Dfs, keys: set<Handle>, tr0: Trace, tr: Trace,
                     v: Handle, time: int, children: int, first: Option<Handle>, w: (Handle, Handle))
    requires Visiting(s, d0, d, keys, tr0, tr, v, time, children, first) && JustifiedBy(d, tr.done, v, w)
    ensures Visiting(s, d0, d.(art := d.art[v := true]), keys, tr0, tr.(why := tr.why[v := w]), v, time, children, first)
  {
    FlagKeeps(s, d, keys, tr, v, w);
    FlagGrew(d0, d, keys, tr0.done, tr.done, v);
  }

  /**
   * A tree edge of `dfs_vertex_cut`: the undiscovered neighbour `u` of `v`
   * becomes its child and is searched, `low[v] = min(low[v], low[u])`, and
   * `v` is flagged when it is a root with a second child or a non-root
   * whose child's low value is not below its discovery time.
   */
  method TreeEdge(g: Graph, v: Handle, u: Handle, d: Dfs, time: int, children: int,
                  ghost s: Snapshot, ghost keys: set<Handle>, ghost d0: Dfs, ghost tr0: Trace, ghost tr: Trace,
                  ghost first: Option<Handle>, ghost second: Option<Handle>, ghost seen: seq<Handle>)
      returns (d': Dfs, time': int, ghost tr': Trace)
    requires s == g.Snap() && keys == LiveSet(s) && Linked(s) && u in Nbrs(s, v)
    requires Visiting(s, d0, d, keys, tr0, tr, v, time, children, first) && u in keys && d.disc[u] == -1
    requires Finished(s, d, keys, tr.done) && NewSince(s, d0, d, keys, tr.done, v)
    requires Scanned(s, d, keys, tr.done, v, seen, children, first, second)
    ensures Visiting(s, d0, d', keys, tr0, tr', v, time', children + 1, if children > 0 then first else Some(u))
    ensures Finished(s, d', keys, tr'.done) && NewSince(s, d0, d', keys, tr'.done, v)
    ensures Scanned(s, d', keys, tr'.done, v, seen + [u], children + 1,
                    if children > 0 then first else Some(u), if children == 1 then Some(u) else second)
    ensures d'.parent[u] == Some(v) && d'.low[v] == Min(d.low[v], d'.low[u])
    ensures d'.art[v] == (d.art[v] || (d.parent[v] == None && children + 1 > 1)
                                   || (d.parent[v] != None && d'.low[u] >= d.disc[v]))
    decreases Pending(d.disc, keys), 2
  {
    AdoptKeeps(s, d, keys, tr, v, u);
    AdoptFinished(s, d, keys, tr, v, u);
    var d1 := d.(parent := d.parent[u := Some(v)]);
    var d2;
    d2, time', tr' := DfsVertexCut(g, u, d1, time, s, keys, tr);
    d', tr' := ChildDone(v, u, d, d2, children, s, keys, d0, tr0, tr, tr', time, time', first, second, seen);
  }

  /**
   * The return from the search of the tree child `u` of `v`, entered with
   * the dictionaries `d`, which handed back `d2`: the loop state holds
   * again with one more child and `u` scanned.
   */
  method ChildDone(v: Handle, u: Handle, ghost d: Dfs, d2: Dfs, children: int,
                   ghost s: Snapshot, ghost keys: set<Handle>, ghost d0: Dfs, ghost tr0: Trace, ghost tr: Trace,
                   ghost tr2: Trace, ghost time: int, ghost time2: int, ghost first: Option<Handle>,
                   ghost second: Option<Handle>, ghost seen: seq<Handle>)
      returns (d': Dfs, ghost tr': Trace)
    requires keys == LiveSet(s) && Linked(s) && u in Nbrs(s, v)
    requires Visiting(s, d0, d, keys, tr0, tr, v, time, children, first) && u in keys && d.disc[u] == -1
    requires NewSince(s, d0, d, keys, tr.done, v)
    requires Scanned(s, d, keys, tr.done, v, seen, children, first, second)
    requires Keyed(d.(parent := d.parent[u := Some(v)]), keys)
    requires Inv(s, d2, keys, tr2) && time2 == |tr2.order| && time2 > time
    requires d2.disc[u] == time && d2.parent[u] == Some(v) && u in tr2.done
    requires Grew(d.(parent := d.parent[u := Some(v)]), d2, keys, tr.done, tr2.done) && Finished(s, d2, keys, tr2.done)
    requires NewSince(s, d.(parent := d.parent[u := Some(v)]), d2, keys, tr2.done, u)
    ensures Visiting(s, d0, d', keys, tr0, tr', v, time2, children + 1, if children > 0 then first else Some(u))
    ensures Finished(s, d', keys, tr'.done) && NewSince(s, d0, d', keys, tr'.done, v)
    ensures Scanned(s, d', keys, tr'.done, v, seen + [u], children + 1,
                    if children > 0 then first else Some(u), if children == 1 then Some(u) else second)
    ensures d'.parent[u] == Some(v) && d'.low[v] == Min(d.low[v], d'.low[u])
    ensures d'.art[v] == (d.art[v] || (d.parent[v] == None && children + 1 > 1)
                                   || (d.parent[v] != None && d'.low[u] >= d.disc[v]))
  {
    ChildFacts(s, d0, d, d2, keys, tr0, tr, tr2, v, u, time, time2, children, first, second, seen);
    d', tr' := Rejoin(v, u, d, d2, children, s, keys, d0, tr0, tr.done, tr2, time2, first, second, seen);
  }

  /** On the return from the search of the tree child `u` of `v`, what `Rejoin` needs. */
  lemma ChildFacts(s: Snapshot, d0: Dfs, d: Dfs, d2: Dfs, keys: set<Handle>, tr0: Trace, tr: Trace, tr2: Trace,
                   v: Handle, u: Handle, time: int, time2: int, children: int, first: Option<Handle>,
                   second: Option<Handle>, seen: seq<Handle>)
    requires keys == LiveSet(s) && Linked(s) && u in Nbrs(s, v)
    requires Visiting(s, d0, d, keys, tr0, tr, v, time, children, first) && u in keys && d.disc[u] == -1
    requires NewSince(s, d0, d, keys, tr.done, v)
    requires Keyed(d.(parent := d.parent[u := Some(v)]), keys)
    requires Inv(s, d2, keys, tr2) && time2 == |tr2.order| && time2 > time
    requires d2.disc[u] == time && d2.parent[u] == Some(v) && u in tr2.done
    requires Grew(d.(parent := d.parent[u := Some(v)]), d2, keys, tr.done, tr2.done)
    requires NewSince(s, d.(parent := d.parent[u := Some(v)]), d2, keys, tr2.done, u)
    ensures Visiting(s, d0, d2, keys, tr0, tr2, v, time2, children + 1, if children > 0 then first else Some(u))
    ensures NewSince(s, d0, d2, keys, tr2.done, v)
    ensures ChildOf(d2, tr2.done, u, v) && (children > 0 ==> first.value != u) && u != v && d2.low[u] >= 0
    ensures Keyed(d, keys)
    ensures children > 0 ==> first.Some? && first.value in keys && d.parent[first.value] == Some(v)
    ensures d.disc[v] != -1 && d2.disc[u] != -1
    ensures FrozenBut(d.(parent := d.parent[u := Some(v)]), d2, keys, None) && tr.done <= tr2.done
  {
    ChildReturned(s, d0, d, d2, keys, tr0, tr, tr2, v, u, time, time2, children, first);
    NewSinceChild(s, d0, d, d.(parent := d.parent[u := Some(v)]), d2, keys, tr.done, tr2.done, v, u);
  }

  /**
   * The second half of the return from the tree child `u` of `v`: the
   * updates of `AfterChild` on `d2`, after which `u` counts as scanned on
   * top of the loop state `d` before the call.
   */
  method Rejoin(v: Handle, u: Handle, ghost d: Dfs, d2: Dfs, children: int,
                ghost s: Snapshot, ghost keys: set<Handle>, ghost d0: Dfs, ghost tr0: Trace, ghost done: set<Handle>,
                ghost tr2: Trace, ghost time2: int, ghost first: Option<Handle>,
                ghost second: Option<Handle>, ghost seen: seq<Handle>)
      returns (d': Dfs, ghost tr': Trace)
    requires Visiting(s, d0, d2, keys, tr0, tr2, v, time2, children + 1, if children > 0 then first else Some(u))
    requires Finished(s, d2, keys, tr2.done) && NewSince(s, d0, d2, keys, tr2.done, v)
    requires ChildOf(d2, tr2.done, u, v) && (children > 0 ==> first.value != u) && u != v && d2.low[u] >= 0
    requires Keyed(d, keys) && Keyed(d.(parent := d.parent[u := Some(v)]), keys) && u in keys
    requires Scanned(s, d, keys, done, v, seen, children, first, second)
    requires children > 0 ==> first.Some? && first.value in keys && d.parent[first.value] == Some(v)
    requires d.disc[v] != -1 && d.disc[u] == -1 && d2.disc[u] != -1
    requires FrozenBut(d.(parent := d.parent[u := Some(v)]), d2, keys, None)
    requires NewSince(s, d.(parent := d.parent[u := Some(v)]), d2, keys, tr2.done, u) && done <= tr2.done
    ensures Visiting(s, d0, d', keys, tr0, tr', v, time2, children + 1, if children > 0 then first else Some(u))
    ensures Finished(s, d', keys, tr'.done) && NewSince(s, d0, d', keys, tr'.done, v)
    ensures Scanned(s, d', keys, tr'.done, v, seen + [u], children + 1,
                    if children > 0 then first else Some(u), if children == 1 then Some(u) else second)
    ensures d'.parent[u] == Some(v) && d'.low[v] == Min(d.low[v], d'.low[u])
    ensures d'.art[v] == (d.art[v] || (d.parent[v] == None && children + 1 > 1)
                                   || (d.parent[v] != None && d'.low[u] >= d.disc[v]))
  {
    ghost var first' := if children > 0 then first else Some(u);
    d', tr' := AfterChild(v, u, d2, children + 1, s, keys, d0, tr0, tr2, time2, first');
    RejoinScanned(s, d0, d, d2, d', keys, done, tr2.done, v, u, seen, children, first, second);
  }

  /**
   * After `AfterChild` took the state `d2` on the return from the tree
   * child `u` to `d4`: the search from `v` still accounts for what it
   * discovered, `u` counts as scanned on top of the loop state `d` before
   * the tree edge, and the entries of `v` are those the source computes.
   */
  lemma RejoinScanned(s: Snapshot, d0: Dfs, d: Dfs, d2: Dfs, d4: Dfs, keys: set<Handle>, done: set<Handle>,
                      done2: set<Handle>, v: Handle, u: Handle, seen: seq<Handle>, children: int,
                      first: Option<Handle>, second: Option<Handle>)
    requires Keyed(d0, keys) && Keyed(d, keys) && Keyed(d.(parent := d.parent[u := Some(v)]), keys)
    requires Keyed(d2, keys) && Keyed(d4, keys) && v in keys && u in keys && u != v
    requires NewSince(s, d0, d2, keys, done2, v)
    requires Scanned(s, d, keys, done, v, seen, children, first, second)
    requires children > 0 ==> first.Some? && first.value in keys && d.parent[first.value] == Some(v)
    requires d.disc[v] != -1 && d.disc[u] == -1 && d2.disc[u] != -1 && d2.parent[u] == Some(v) && u in done2
    requires FrozenBut(d.(parent := d.parent[u := Some(v)]), d2, keys, None)
    requires NewSince(s, d.(parent := d.parent[u := Some(v)]), d2, keys, done2, u) && done <= done2
    requires Rejoined(d2, d4, v, u, children + 1)
    ensures NewSince(s, d0, d4, keys, done2, v)
    ensures Scanned(s, d4, keys, done2, v, seen + [u], children + 1,
                    if children > 0 then first else Some(u), if children == 1 then Some(u) else second)
    ensures d4.parent[u] == Some(v) && d4.low[v] == Min(d.low[v], d4.low[u])
    ensures d4.art[v] == (d.art[v] || (d.parent[v] == None && children + 1 > 1)
                                   || (d.parent[v] != None && d4.low[u] >= d.disc[v]))
  {
    NewSinceTree(s, d0, d2, d4, keys, done2, v);
    TreeFrame(s, d, d.(parent := d.parent[u := Some(v)]), d2, d4, keys, done2, v, u, seen, children);
    TreeScanned(s, d, d4, keys, done, done2, v, u, seen, children, first, second);
  }

  /**
   * `d1` is `d` after the return from the tree child `u` of `v`, the
   * `children`-th: `low[v] = min(low[v], low[u])`, and `v` is flagged when
   * it is a root with more than one child or a non-root whose child `u` has
   * a low value not below the discovery time of `v`; nothing else changes.
   */
  ghost predicate Rejoined(d: Dfs, d1: Dfs, v: Handle, u: Handle, children: int)
    requires v in d.disc && v in d.low && u in d.low && v in d.parent && v in d.art
  {
    && d1.disc == d.disc && d1.parent == d.parent && d1.low == d.low[v := Min(d.low[v], d.low[u])]
    && d1.art == d.art[v := d.art[v] || (d.parent[v] == None && children > 1)
                                     || (d.parent[v] != None && d.low[u] >= d.disc[v])]
  }

  /**
   * The return from the search of the tree child `u` of `v`: first
   * `low[v] = min(low[v], low[u])`, then `v` is flagged when it is a root
   * with more than one child, or a non-root whose child `u` has a low value
   * not below the discovery time of `v`; nothing else changes.
   */
  method AfterChild(v: Handle, u: Handle, d: Dfs, children: int,
                    ghost s: Snapshot, ghost keys: set<Handle>, ghost d0: Dfs, ghost tr0: Trace, ghost tr: Trace,
                    ghost time: int, ghost first: Option<Handle>)
      returns (d': Dfs, ghost tr': Trace)
    requires Visiting(s, d0, d, keys, tr0, tr, v, time, children, first) && Finished(s, d, keys, tr.done)
    requires ChildOf(d, tr.done, u, v) && (children > 1 ==> first.value != u) && u != v && d.low[u] >= 0
    ensures Visiting(s, d0, d', keys, tr0, tr', v, time, children, first) && tr'.done == tr.done
    ensures Finished(s, d', keys, tr'.done)
    ensures Rejoined(d, d', v, u, children)
  {
    LowerVisiting(s, d0, d, keys, tr0, tr, v, time, children, first, d.low[u]);
    LowerFinished(s, d, keys, tr.done, v, Min(d.low[v], d.low[u]));
    var d1 := d.(low := d.low[v := Min(d.low[v], d.low[u])]);
    MinBelow(d.low, v, u);
    if d1.parent[v] == None && children > 1 {
      FlagVisiting(s, d0, d1, keys, tr0, tr, v, time, children, first, (first.value, u));
      d' := d1.(art := d1.art[v := true]);
      tr' := tr.(why := tr.why[v := (first.value, u)]);
    } else if d1.parent[v] != None && d1.low[u] >= d1.disc[v] {
      FlagVisiting(s, d0, d1, keys, tr0, tr, v, time, children, first, (u, u));
      d' := d1.(art := d1.art[v := true]);
      tr' := tr.(why := tr.why[v := (u, u)]);
    } else {
      d', tr' := d1, tr;
    }
    FinishedKept(s, d1, d', keys, tr.done, tr.done, Some(v));
  }

  /** The dictionaries of `tarjan_algorithm_cut_vertex` before any search: -1, -1, None, False. */
  function Init(nodes: seq<Handle>): (d: Dfs)
    ensures forall h :: (h in d.disc <==> h in nodes) && (h in d.low <==> h in nodes)
    ensures forall h :: (h in d.parent <==> h in nodes) && (h in d.art <==> h in nodes)
    ensures forall h | h in nodes :: d.disc[h] == -1 && d.low[h] == -1 && d.parent[h] == None && !d.art[h]
  {
    Dfs(map h | h in nodes :: -1, map h | h in nodes :: -1, map h | h in nodes :: None, map h | h in nodes :: false)
  }

  /** The invariant holds before any search, with nothing discovered. */
  lemma InitInv(s: Snapshot)
    ensures Inv(s, Init(s.nodes), LiveSet(s), Trace([], {}, map[]))
  {
    var d := Init(s.nodes);
    var keys := LiveSet(s);
    assert Keyed(d, keys);
    forall h | h in keys
      ensures NodeOk(s, d, keys, Trace([], {}, map[]), h)
    {
    }
  }

  /** The first node of `nodes` flagged in `art`, if any. */
  function FirstFlagged(nodes: seq<Handle>, art: map<Handle, bool>): (r: Option<Handle>)
    requires forall h | h in nodes :: h in art
    ensures r.Some? ==> r.value in nodes && art[r.value]
    ensures r == None <==> forall h | h in nodes :: !art[h]
  {
    if nodes == [] then None
    else if art[nodes[0]] then Some(nodes[0])
    else FirstFlagged(nodes[1..], art)
  }

  /**
   * Among the first `i` listed nodes, the roots of the search forest (no
   * parent) are exactly those that no earlier listed node reaches.
   */
  ghost predicate Roots(s: Snapshot, d: Dfs, i: int)
    requires forall h | h in s.nodes :: h in d.parent
  {
    forall j {:trigger ReachedFrom(s, j, s.nodes[j])} | 0 <= j < i && j < |s.nodes| ::
      d.parent[s.nodes[j]] == None <==> !ReachedFrom(s, j, s.nodes[j])
  }

  /**
   * What `tarjan_algorithm_cut_vertex` leaves: the search invariant; every
   * listed node discovered, with its low value the `LowFold` of its
   * neighbour list, its flag exact and its later-discovered neighbours
   * below it in the parent forest; and the roots of that forest are the
   * listed nodes that no earlier listed node reaches.
   */
  ghost predicate Searched(s: Snapshot, d: Dfs, tr: Trace)
  {
    && Linked(s)
    && Inv(s, d, LiveSet(s), tr)
    && (forall h | h in s.nodes ::
          && d.disc[h] != -1
          && d.low[h] == LowFold(d, LiveSet(s), h, Nbrs(s, h))
          && ArtExact(d, LiveSet(s), h)
          && DepthFirst(s, d, LiveSet(s), h))
    && Roots(s, d, |s.nodes|)
  }

  /**
   * `tarjan_algorithm_cut_vertex` on the node list: the search leaves what
   * `Searched` describes, and the answer is the first flagged node in list
   * order, `None` when there is none.
   */
  method TarjanCutVertex(g: Graph) returns (cut: Option<Handle>, d: Dfs, ghost tr: Trace)
    requires g.Valid()
    ensures Searched(g.Snap(), d, tr)
    ensures cut == FirstFlagged(g.nodeList, d.art)
  {
    ValidIsLinked(g.Snap());
    d, tr := SearchAll(g, g.Snap(), LiveSet(g.Snap()));
    cut := ScanFlags(g.nodeList, d.art);
  }

  /**
   * Between the searches of `tarjan_algorithm_cut_vertex`, after the first
   * `i` listed nodes: discovered nodes are finished and are exactly those
   * reachable from the first `i` listed nodes; undiscovered nodes have no
   * parent; a discovered node without a parent is one of the first `i`;
   * and `Roots` holds for the first `i`.
   */
  ghost predicate Forest(s: Snapshot, d: Dfs, keys: set<Handle>, done: set<Handle>, i: int)
    requires Keyed(d, keys) && keys == LiveSet(s)
  {
    && 0 <= i <= |s.nodes|
    && (forall h | h in keys && d.disc[h] != -1 :: h in done)
    && (forall h | h in keys && d.disc[h] == -1 :: d.parent[h] == None)
    && (forall h {:trigger h in s.nodes[..i]} | h in keys && d.disc[h] != -1 && d.parent[h] == None :: h in s.nodes[..i])
    && (forall h {:trigger ReachedFrom(s, i, h)} | h in keys && d.disc[h] != -1 :: ReachedFrom(s, i, h))
    && (forall h | h in keys && ReachedFrom(s, i, h) :: d.disc[h] != -1)
    && Roots(s, d, i)
  }

  /** Once discovered nodes are finished, the discovered nodes hold every neighbour of theirs. */
  lemma DiscoveredClosed(s: Snapshot, d: Dfs, keys: set<Handle>, done: set<Handle>)
    requires Keyed(d, keys) && Finished(s, d, keys, done)
    requires forall h | h in keys && d.disc[h] != -1 :: h in done
    ensures Closed(s, keys, Discovered(d, keys))
  {
    var r := Discovered(d, keys);
    forall x, w | x in r && w in Nbrs(s, x) && w in keys
      ensures w in r
    {
      assert Settled(s, d, keys, done, x);
    }
  }

  /**
   * After a search from `v`, entered in `d0` with every discovered node
   * finished, every discovered node is finished again, so the discovered
   * nodes hold every neighbour of theirs.
   */
  lemma SearchedClosed(s: Snapshot, d0: Dfs, d1: Dfs, keys: set<Handle>, done0: set<Handle>, done1: set<Handle>, v: Handle)
    requires Keyed(d0, keys) && Keyed(d1, keys) && Finished(s, d1, keys, done1) && Grew(d0, d1, keys, done0, done1)
    requires forall h | h in keys && d0.disc[h] != -1 :: h in done0
    requires NewSince(s, d0, d1, keys, done1, v) && v in done1
    ensures forall h | h in keys && d1.disc[h] != -1 :: h in done1
    ensures Closed(s, keys, Discovered(d1, keys))
  {
    forall h | h in keys && d1.disc[h] != -1
      ensures h in done1
    {
      if d0.disc[h] != -1 {
        assert h in done0;
      } else if h != v {
        assert d1.parent[h].Some?;
      }
    }
    DiscoveredClosed(s, d1, keys, done1);
  }

  /** The first listed nodes are discovered while the forest describes them. */
  lemma ForestPrefix(s: Snapshot, d: Dfs, keys: set<Handle>, done: set<Handle>, i: int, j: int)
    requires Keyed(d, keys) && keys == LiveSet(s) && Forest(s, d, keys, done, i) && 0 <= j < i
    ensures s.nodes[j] in keys && d.disc[s.nodes[j]] != -1
  {
    ReachSelf(s, keys, s.nodes[j]);
    assert ReachedFrom(s, i, s.nodes[j]);
  }

  /** A set closed under neighbours that holds the first `i` listed nodes holds everything they reach. */
  lemma ClosedHoldsReached(s: Snapshot, keys: set<Handle>, r: set<Handle>, i: int, h: Handle)
    requires keys == LiveSet(s) && Closed(s, keys, r) && ReachedFrom(s, i, h)
    requires forall j | 0 <= j < i && j < |s.nodes| :: s.nodes[j] in r
    ensures h in r
  {
    var j :| 0 <= j < i && j < |s.nodes| && Reaches(s, keys, s.nodes[j], h);
    ClosedHoldsReachable(s, keys, r, s.nodes[j]);
  }

  /** The nodes discovered in `d`. */
  ghost function Discovered(d: Dfs, keys: set<Handle>): set<Handle>
    requires Keyed(d, keys)
  {
    set h | h in keys && d.disc[h] != -1
  }

  /**
   * Once the first `i + 1` listed nodes are discovered and the discovered
   * nodes hold every neighbour of theirs, every node they reach is discovered.
   */
  lemma ForestCovers(s: Snapshot, d: Dfs, keys: set<Handle>, i: int)
    requires Keyed(d, keys) && keys == LiveSet(s) && Closed(s, keys, Discovered(d, keys))
    requires 0 <= i < |s.nodes| && forall j | 0 <= j <= i :: s.nodes[j] in keys && d.disc[s.nodes[j]] != -1
    ensures forall h | h in keys && ReachedFrom(s, i + 1, h) :: d.disc[h] != -1
  {
    forall h | h in keys && ReachedFrom(s, i + 1, h)
      ensures d.disc[h] != -1
    {
      ClosedHoldsReached(s, keys, Discovered(d, keys), i + 1, h);
    }
  }

  /** The search from the undiscovered `i`-th listed node extends the forest by it. */
  lemma ForestGrows(s: Snapshot, d0: Dfs, d1: Dfs, keys: set<Handle>, done0: set<Handle>, done1: set<Handle>, i: int)
    requires Linked(s) && keys == LiveSet(s) && Keyed(d0, keys) && Keyed(d1, keys)
    requires Forest(s, d0, keys, done0, i) && i < |s.nodes| && d0.disc[s.nodes[i]] == -1
    requires Grew(d0, d1, keys, done0, done1) && Closed(s, keys, Discovered(d1, keys))
    requires forall h | h in keys && d1.disc[h] != -1 :: h in done1
    requires d1.disc[s.nodes[i]] != -1 && d1.parent[s.nodes[i]] == d0.parent[s.nodes[i]] && s.nodes[i] in done1
    requires NewSince(s, d0, d1, keys, done1, s.nodes[i])
    ensures Forest(s, d1, keys, done1, i + 1)
  {
    ForestGrowsParts(s, d0, d1, keys, done0, done1, i);
  }

  /** `ForestGrows` conjunct by conjunct. */
  lemma ForestGrowsParts(s: Snapshot, d0: Dfs, d1: Dfs, keys: set<Handle>, done0: set<Handle>, done1: set<Handle>, i: int)
    requires Linked(s) && keys == LiveSet(s) && Keyed(d0, keys) && Keyed(d1, keys)
    requires Forest(s, d0, keys, done0, i) && i < |s.nodes| && d0.disc[s.nodes[i]] == -1
    requires Grew(d0, d1, keys, done0, done1) && Closed(s, keys, Discovered(d1, keys))
    requires d1.disc[s.nodes[i]] != -1 && d1.parent[s.nodes[i]] == d0.parent[s.nodes[i]] && s.nodes[i] in done1
    requires NewSince(s, d0, d1, keys, done1, s.nodes[i])
    ensures forall h | h in keys && d1.disc[h] == -1 :: d1.parent[h] == None
    ensures forall h {:trigger h in s.nodes[..i + 1]} | h in keys && d1.disc[h] != -1 && d1.parent[h] == None :: h in s.nodes[..i + 1]
    ensures forall h {:trigger ReachedFrom(s, i + 1, h)} | h in keys && d1.disc[h] != -1 :: ReachedFrom(s, i + 1, h)
    ensures forall h | h in keys && ReachedFrom(s, i + 1, h) :: d1.disc[h] != -1
    ensures Roots(s, d1, i + 1)
  {
    ForestGrowsReached(s, d0, d1, keys, done0, done1, i);
    ForestGrowsRoots(s, d0, d1, keys, done0, done1, i);
  }

  /** After the search from the `i`-th listed node, discovered is reached from the first `i + 1`. */
  lemma ForestGrowsReached(s: Snapshot, d0: Dfs, d1: Dfs, keys: set<Handle>, done0: set<Handle>, done1: set<Handle>, i: int)
    requires Linked(s) && keys == LiveSet(s) && Keyed(d0, keys) && Keyed(d1, keys)
    requires Forest(s, d0, keys, done0, i) && i < |s.nodes| && d0.disc[s.nodes[i]] == -1
    requires Grew(d0, d1, keys, done0, done1) && Closed(s, keys, Discovered(d1, keys))
    requires d1.disc[s.nodes[i]] != -1 && d1.parent[s.nodes[i]] == d0.parent[s.nodes[i]] && s.nodes[i] in done1
    requires NewSince(s, d0, d1, keys, done1, s.nodes[i])
    ensures forall h {:trigger ReachedFrom(s, i + 1, h)} | h in keys && d1.disc[h] != -1 :: ReachedFrom(s, i + 1, h)
    ensures forall h | h in keys && ReachedFrom(s, i + 1, h) :: d1.disc[h] != -1
  {
    var v := s.nodes[i];
    forall j | 0 <= j <= i
      ensures s.nodes[j] in keys && d1.disc[s.nodes[j]] != -1
    {
      if j < i {
        ForestPrefix(s, d0, keys, done0, i, j);
      }
    }
    ForestCovers(s, d1, keys, i);
    forall h | h in keys && d1.disc[h] != -1
      ensures ReachedFrom(s, i + 1, h)
    {
      ReachedGrows(s, d0, keys, i, h);
    }
  }

  /** A node reached before, or newly reached from the `i`-th listed node, is reached from the first `i + 1`. */
  lemma ReachedGrows(s: Snapshot, d0: Dfs, keys: set<Handle>, i: int, h: Handle)
    requires Keyed(d0, keys) && keys == LiveSet(s) && 0 <= i < |s.nodes| && h in keys
    requires d0.disc[h] != -1 ==> ReachedFrom(s, i, h)
    requires d0.disc[h] == -1 ==> Reaches(s, Pending(d0.disc, keys), s.nodes[i], h)
    ensures ReachedFrom(s, i + 1, h)
  {
    if d0.disc[h] == -1 {
      ReachWider(s, Pending(d0.disc, keys), keys, s.nodes[i], h);
      assert Reaches(s, keys, s.nodes[i], h);
    } else {
      var j :| 0 <= j < i && j < |s.nodes| && Reaches(s, LiveSet(s), s.nodes[j], h);
      assert Reaches(s, LiveSet(s), s.nodes[j], h);
    }
  }

  /** After the search from the `i`-th listed node, it is the one new root. */
  lemma ForestGrowsRoots(s: Snapshot, d0: Dfs, d1: Dfs, keys: set<Handle>, done0: set<Handle>, done1: set<Handle>, i: int)
    requires Linked(s) && keys == LiveSet(s) && Keyed(d0, keys) && Keyed(d1, keys)
    requires Forest(s, d0, keys, done0, i) && i < |s.nodes| && d0.disc[s.nodes[i]] == -1
    requires Grew(d0, d1, keys, done0, done1) && Closed(s, keys, Discovered(d1, keys))
    requires d1.disc[s.nodes[i]] != -1 && d1.parent[s.nodes[i]] == d0.parent[s.nodes[i]] && s.nodes[i] in done1
    requires NewSince(s, d0, d1, keys, done1, s.nodes[i])
    ensures forall h | h in keys && d1.disc[h] == -1 :: d1.parent[h] == None
    ensures forall h {:trigger h in s.nodes[..i + 1]} | h in keys && d1.disc[h] != -1 && d1.parent[h] == None :: h in s.nodes[..i + 1]
    ensures Roots(s, d1, i + 1)
  {
    var v := s.nodes[i];
    forall h | h in keys && d1.disc[h] == -1
      ensures d1.parent[h] == None
    {
      assert d0.disc[h] == -1;
    }
    forall h | h in keys && d1.disc[h] != -1 && d1.parent[h] == None
      ensures (d0.disc[h] != -1 && d0.parent[h] == None) || h == v
    {
      if d0.disc[h] == -1 {
        assert h == v;
      }
    }
    ListedGrowsBy(s, d0, d1, keys, i);
    forall j | 0 <= j < i
      ensures d1.parent[s.nodes[j]] == d0.parent[s.nodes[j]]
    {
      ForestPrefix(s, d0, keys, done0, i, j);
    }
    RootsFrame(s, d0, d1, i);
    assert !ReachedFrom(s, i, v);
    RootsExtend(s, d1, i);
  }

  /** `Roots` over the first `i` listed nodes depends on their parents only. */
  lemma RootsFrame(s: Snapshot, d0: Dfs, d1: Dfs, i: int)
    requires forall h | h in s.nodes :: h in d0.parent && h in d1.parent
    requires 0 <= i <= |s.nodes| && Roots(s, d0, i)
    requires forall j | 0 <= j < i :: d1.parent[s.nodes[j]] == d0.parent[s.nodes[j]]
    ensures Roots(s, d1, i)
  {
    forall j | 0 <= j < i && j < |s.nodes|
      ensures d1.parent[s.nodes[j]] == None <==> !ReachedFrom(s, j, s.nodes[j])
    {
      assert d0.parent[s.nodes[j]] == None <==> !ReachedFrom(s, j, s.nodes[j]);
    }
  }

  /** A listed node found discovered extends the forest unchanged. */
  lemma ForestSkips(s: Snapshot, d: Dfs, keys: set<Handle>, done: set<Handle>, i: int)
    requires Linked(s) && Unrepeated(s) && keys == LiveSet(s) && Keyed(d, keys) && Closed(s, keys, Discovered(d, keys))
    requires Forest(s, d, keys, done, i) && i < |s.nodes| && d.disc[s.nodes[i]] != -1
    ensures Forest(s, d, keys, done, i + 1)
  {
    ForestSkipsParts(s, d, keys, done, i);
  }

  /** `ForestSkips` conjunct by conjunct. */
  lemma ForestSkipsParts(s: Snapshot, d: Dfs, keys: set<Handle>, done: set<Handle>, i: int)
    requires Linked(s) && Unrepeated(s) && keys == LiveSet(s) && Keyed(d, keys) && Closed(s, keys, Discovered(d, keys))
    requires Forest(s, d, keys, done, i) && i < |s.nodes| && d.disc[s.nodes[i]] != -1
    ensures forall h | h in keys && d.disc[h] != -1 :: h in done
    ensures forall h | h in keys && d.disc[h] == -1 :: d.parent[h] == None
    ensures forall h {:trigger h in s.nodes[..i + 1]} | h in keys && d.disc[h] != -1 && d.parent[h] == None :: h in s.nodes[..i + 1]
    ensures forall h {:trigger ReachedFrom(s, i + 1, h)} | h in keys && d.disc[h] != -1 :: ReachedFrom(s, i + 1, h)
    ensures forall h | h in keys && ReachedFrom(s, i + 1, h) :: d.disc[h] != -1
    ensures Roots(s, d, i + 1)
  {
    var v := s.nodes[i];
    forall j | 0 <= j <= i
      ensures s.nodes[j] in keys && d.disc[s.nodes[j]] != -1
    {
      if j < i {
        ForestPrefix(s, d, keys, done, i, j);
      }
    }
    ForestCovers(s, d, keys, i);
    assert v !in s.nodes[..i];
    assert d.parent[v] != None;
    assert ReachedFrom(s, i, v);
    RootsExtend(s, d, i);
    ListedGrows(s, d, keys, i);
    forall h | h in keys && d.disc[h] != -1
      ensures ReachedFrom(s, i + 1, h)
    {
      assert ReachedFrom(s, i, h);
    }
  }

  /** A discovered root listed among the first `i` nodes is listed among the first `i + 1`. */
  lemma ListedGrows(s: Snapshot, d: Dfs, keys: set<Handle>, i: int)
    requires Keyed(d, keys) && 0 <= i < |s.nodes|
    requires forall h {:trigger h in s.nodes[..i]} | h in keys && d.disc[h] != -1 && d.parent[h] == None :: h in s.nodes[..i]
    ensures forall h {:trigger h in s.nodes[..i + 1]} | h in keys && d.disc[h] != -1 && d.parent[h] == None :: h in s.nodes[..i + 1]
  {
    forall h | h in keys && d.disc[h] != -1 && d.parent[h] == None
      ensures h in s.nodes[..i + 1]
    {
      assert h in s.nodes[..i];
      var k :| 0 <= k < i && s.nodes[..i][k] == h;
      assert s.nodes[..i + 1][k] == h;
    }
  }

  /** Listed roots extend to the `i`-th listed node when it is the only new root. */
  lemma ListedGrowsBy(s: Snapshot, d0: Dfs, d1: Dfs, keys: set<Handle>, i: int)
    requires Keyed(d0, keys) && Keyed(d1, keys) && 0 <= i < |s.nodes|
    requires forall h {:trigger h in s.nodes[..i]} | h in keys && d0.disc[h] != -1 && d0.parent[h] == None :: h in s.nodes[..i]
    requires forall h | h in keys && d1.disc[h] != -1 && d1.parent[h] == None ::
               (d0.disc[h] != -1 && d0.parent[h] == None) || h == s.nodes[i]
    ensures forall h {:trigger h in s.nodes[..i + 1]} | h in keys && d1.disc[h] != -1 && d1.parent[h] == None :: h in s.nodes[..i + 1]
  {
    forall h | h in keys && d1.disc[h] != -1 && d1.parent[h] == None
      ensures h in s.nodes[..i + 1]
    {
      if h == s.nodes[i] {
        assert s.nodes[..i + 1][i] == h;
      } else {
        assert h in s.nodes[..i];
        var k :| 0 <= k < i && s.nodes[..i][k] == h;
        assert s.nodes[..i + 1][k] == h;
      }
    }
  }

  /** `Roots` extends to the `i`-th listed node once it holds there. */
  lemma RootsExtend(s: Snapshot, d: Dfs, i: int)
    requires forall h | h in s.nodes :: h in d.parent
    requires Roots(s, d, i) && 0 <= i < |s.nodes|
    requires d.parent[s.nodes[i]] == None <==> !ReachedFrom(s, i, s.nodes[i])
    ensures Roots(s, d, i + 1)
  {
  }

  /** The first loop of `tarjan_algorithm_cut_vertex`: a search from every node still undiscovered. */
  method SearchAll(g: Graph, ghost s: Snapshot, ghost keys: set<Handle>) returns (d: Dfs, ghost tr: Trace)
    requires s == g.Snap() && keys == LiveSet(s) && Linked(s) && Unrepeated(s)
    ensures Searched(s, d, tr)
  {
    var nodes := g.nodeList;
    assert forall j | 0 <= j < |nodes| :: nodes[j] in keys;
    InitInv(s);
    d := Init(nodes);
    tr := Trace([], {}, map[]);
    var time := 0;
    assert Forest(s, d, keys, tr.done, 0);
    for i := 0 to |nodes|
      invariant Inv(s, d, keys, tr) && time == |tr.order|
      invariant Finished(s, d, keys, tr.done) && Forest(s, d, keys, tr.done, i)
    {
      if d.disc[nodes[i]] == -1 {
        ghost var d0, tr0 := d, tr;
        d, time, tr := DfsVertexCut(g, nodes[i], d, time, s, keys, tr);
        SearchedClosed(s, d0, d, keys, tr0.done, tr.done, nodes[i]);
        ForestGrows(s, d0, d, keys, tr0.done, tr.done, i);
      } else {
        DiscoveredClosed(s, d, keys, tr.done);
        ForestSkips(s, d, keys, tr.done, i);
      }
    }
    ForestSearched(s, d, keys, tr);
  }

  /** Once the loop has passed every listed node, the search leaves what `Searched` describes. */
  lemma ForestSearched(s: Snapshot, d: Dfs, keys: set<Handle>, tr: Trace)
    requires keys == LiveSet(s) && Linked(s) && Inv(s, d, keys, tr)
    requires Finished(s, d, keys, tr.done) && Forest(s, d, keys, tr.done, |s.nodes|)
    ensures Searched(s, d, tr)
  {
    forall h | h in s.nodes
      ensures d.disc[h] != -1 && Settled(s, d, keys, tr.done, h)
    {
      ReachSelf(s, keys, h);
      var j :| 0 <= j < |s.nodes| && s.nodes[j] == h;
      assert ReachedFrom(s, |s.nodes|, h);
    }
  }

  /** The closing loop of `tarjan_algorithm_cut_vertex`: the first flagged node in list order. */
  method ScanFlags(nodes: seq<Handle>, art: map<Handle, bool>) returns (cut: Option<Handle>)
    requires forall h | h in nodes :: h in art
    ensures cut == FirstFlagged(nodes, art)
  {
    for i := 0 to |nodes|
      invariant FirstFlagged(nodes, art) == FirstFlagged(nodes[i..], art)
    {
      assert nodes[i..][1..] == nodes[i + 1..];
      if art[nodes[i]] {
        return Some(nodes[i]);
      }
    }
    return None;
  }
}

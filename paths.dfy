/**
 * The augmenting-path search of GraphAlgorithms.py
 * (`find_augmenting_path_bfs`): a BFS over the current edge orientation that
 * remembers, for every node it reaches, the list of edges that led there,
 * and answers the longest such list ending in the target group.
 * A path is a sequence of edge positions in the edge list.
 */
module AugmentingPaths {

  import opened Wrappers
  import opened GraphNode
  import opened GraphEdge
  import opened GraphStore

  /** The head of edge position `e`, or 0 for a position past the end. */
  function DestOf(s: Snapshot, e: nat): Handle
  {
    if e < |s.edges| then s.edges[e].dest else 0
  }

  /** The nodes a path visits: `start`, then the head of each edge in turn. */
  function Walk(s: Snapshot, start: Handle, p: seq<nat>): (w: seq<Handle>)
    ensures |w| == |p| + 1 && w[0] == start
    ensures forall i | 0 <= i < |p| :: w[i + 1] == DestOf(s, p[i])
  {
    if p == [] then [start]
    else Walk(s, start, p[..|p| - 1]) + [DestOf(s, p[|p| - 1])]
  }

  /** The node a path ends at. */
  function EndOf(s: Snapshot, start: Handle, p: seq<nat>): Handle
  {
    Walk(s, start, p)[|p|]
  }

  /**
   * The BFS follows edge `e` out of `u`: it is the edge `find_edge` returns
   * for `u` and one of its listed neighbours, and it is directed from `u`.
   */
  ghost predicate StepEdge(s: Snapshot, u: Handle, e: nat)
  {
    && e < |s.edges| && s.edges[e].source == u && s.edges[e].dest in Nbrs(s, u)
    && FirstEdgeBetween(s, IdOf(s, u), IdOf(s, s.edges[e].dest)) == Some(e)
  }

  /** Every edge of `p` is a BFS step out of the node the path has reached. */
  ghost predicate StepPath(s: Snapshot, start: Handle, p: seq<nat>)
  {
    forall i | 0 <= i < |p| :: StepEdge(s, Walk(s, start, p)[i], p[i])
  }

  /** The path repeats no node. */
  ghost predicate DistinctWalk(s: Snapshot, start: Handle, p: seq<nat>)
  {
    forall i, j | 0 <= i < j <= |p| :: Walk(s, start, p)[i] != Walk(s, start, p)[j]
  }

  /** What the search may answer: a repetition-free BFS path into the target group. */
  ghost predicate Candidate(s: Snapshot, start: Handle, endGroup: set<Handle>, p: seq<nat>)
  {
    StepPath(s, start, p) && DistinctWalk(s, start, p) && EndOf(s, start, p) in endGroup
  }

  /** `u` does not lead on, by a BFS step, to a neighbour outside `visited`. */
  ghost predicate NotForward(s: Snapshot, u: Handle, v: Handle)
  {
    match FirstEdgeBetween(s, IdOf(s, u), IdOf(s, v))
    case None => true
    case Some(e) => e >= |s.edges| || s.edges[e].dest != v
  }

  /** Every neighbour of `u` is visited or not reachable by a BFS step from `u`. */
  ghost predicate Expanded(s: Snapshot, u: Handle, visited: set<Handle>)
  {
    forall v | v in Nbrs(s, u) :: v in visited || NotForward(s, u, v)
  }

  /** No BFS path from `start` reaches the target group, except by returning to `start`. */
  ghost predicate NoAugmentingFrom(s: Snapshot, start: Handle, endGroup: set<Handle>)
  {
    forall p | StepPath(s, start, p) && EndOf(s, start, p) != start :: EndOf(s, start, p) !in endGroup
  }

  /**
   * `max_path` over the candidates in the order the BFS met them: a later
   * path replaces the current one only when strictly longer.
   */
  function Longest(cs: seq<seq<nat>>): (r: seq<nat>)
    ensures r == [] || r in cs
    ensures forall k | 0 <= k < |cs| :: |cs[k]| <= |r|
  {
    if cs == [] then []
    else
      var best := Longest(cs[..|cs| - 1]);
      assert forall k | 0 <= k < |cs| - 1 :: cs[..|cs| - 1][k] == cs[k];
      if |cs[|cs| - 1]| > |best| then cs[|cs| - 1] else best
  }

  // ---------------------------------------------------------------------
  // Lemmas about paths

  /** A path's walk starts with the walk of each of its prefixes. */
  lemma {:induction false} WalkPrefix(s: Snapshot, start: Handle, p: seq<nat>, n: nat)
    requires n <= |p|
    ensures Walk(s, start, p[..n]) == Walk(s, start, p)[..n + 1]
  {
    var w, v := Walk(s, start, p[..n]), Walk(s, start, p);
    assert |w| == n + 1;
    forall i | 0 <= i <= n
      ensures w[i] == v[i]
    {
      if i > 0 {
        assert p[..n][i - 1] == p[i - 1];
      }
    }
  }

  /** Following one more step keeps a path a BFS path. */
  lemma StepPathAppend(s: Snapshot, start: Handle, p: seq<nat>, e: nat)
    requires StepPath(s, start, p) && StepEdge(s, EndOf(s, start, p), e)
    ensures StepPath(s, start, p + [e])
    ensures Walk(s, start, p + [e]) == Walk(s, start, p) + [s.edges[e].dest]
  {
    assert (p + [e])[..|p|] == p;
  }

  /** A prefix of a BFS path is a BFS path. */
  lemma StepPathPrefix(s: Snapshot, start: Handle, p: seq<nat>, n: nat)
    requires StepPath(s, start, p) && n <= |p|
    ensures StepPath(s, start, p[..n])
  {
    WalkPrefix(s, start, p, n);
  }

  /**
   * A BFS path is a chain of edges: it leaves `start`, and each edge starts
   * where the previous one ends.
   */
  lemma PathChains(s: Snapshot, start: Handle, p: seq<nat>)
    requires StepPath(s, start, p) && |p| > 0
    ensures s.edges[p[0]].source == start
    ensures forall i | 0 <= i < |p| - 1 :: s.edges[p[i]].dest == s.edges[p[i + 1]].source
    ensures s.edges[p[|p| - 1]].dest == EndOf(s, start, p)
  {
    var w := Walk(s, start, p);
    assert StepEdge(s, w[0], p[0]);
    forall i | 0 <= i < |p| - 1
      ensures s.edges[p[i]].dest == s.edges[p[i + 1]].source
    {
      assert StepEdge(s, w[i + 1], p[i + 1]);
    }
  }

  /**
   * A node set containing `start` from which the BFS cannot step outside
   * holds the end of every BFS path from `start`.
   */
  lemma {:induction false} ClosedReach(s: Snapshot, start: Handle, visited: set<Handle>, p: seq<nat>)
    requires start in visited && forall u | u in visited :: Expanded(s, u, visited)
    requires StepPath(s, start, p)
    ensures EndOf(s, start, p) in visited
  {
    if p != [] {
      var n := |p| - 1;
      StepPathPrefix(s, start, p, n);
      ClosedReach(s, start, visited, p[..n]);
      WalkPrefix(s, start, p, n);
      var u := EndOf(s, start, p[..n]);
      assert u == Walk(s, start, p)[n];
      assert StepEdge(s, u, p[n]);
      var v := s.edges[p[n]].dest;
      assert Expanded(s, u, visited) && v in Nbrs(s, u);
      assert !NotForward(s, u, v);
    }
  }

  /** A non-empty `Longest` is the first candidate of greatest length: every earlier one is strictly shorter. */
  lemma {:induction false} LongestIsFirstMaximum(cs: seq<seq<nat>>)
    ensures Longest(cs) != [] ==>
              exists i | 0 <= i < |cs| :: cs[i] == Longest(cs) && forall j | 0 <= j < i :: |cs[j]| < |cs[i]|
  {
    if cs != [] {
      var n := |cs| - 1;
      var front := cs[..n];
      LongestIsFirstMaximum(front);
      assert forall j | 0 <= j < n :: cs[j] == front[j];
      if |cs[n]| > |Longest(front)| {
        assert forall j | 0 <= j < n :: |cs[j]| < |cs[n]|;
      } else if Longest(front) != [] {
        var i :| 0 <= i < n && front[i] == Longest(front) && forall j | 0 <= j < i :: |front[j]| < |front[i]|;
        assert cs[i] == Longest(cs);
      }
    }
  }

  /** One more offer: `Longest` moves to it exactly when it is strictly longer. */
  lemma LongestAppend(cs: seq<seq<nat>>, c: seq<nat>)
    ensures Longest(cs + [c]) == if |c| > |Longest(cs)| then c else Longest(cs)
  {
    assert (cs + [c])[..|cs|] == cs;
  }

  /** Each candidate, once offered, bounds what `Longest` answers from below. */
  lemma LongestGrows(cs: seq<seq<nat>>, c: seq<nat>)
    ensures |Longest(cs + [c])| >= |c| && |Longest(cs + [c])| >= |Longest(cs)|
  {
    assert (cs + [c])[..|cs|] == cs;
  }

  // ---------------------------------------------------------------------
  // The search

  /** The nodes waiting in the BFS queue. */
  function Heads(queue: seq<(Handle, seq<nat>)>): (r: seq<Handle>)
    ensures |r| == |queue| && forall k | 0 <= k < |queue| :: r[k] == queue[k].0
  {
    if queue == [] then [] else [queue[0].0] + Heads(queue[1..])
  }

  lemma {:induction false} HeadsAppend(queue: seq<(Handle, seq<nat>)>, x: (Handle, seq<nat>))
    ensures Heads(queue + [x]) == Heads(queue) + [x.0]
  {
    if queue != [] {
      assert (queue + [x])[1..] == queue[1..] + [x];
      HeadsAppend(queue[1..], x);
    }
  }

  /** A queue entry: a visited node and a repetition-free BFS path to it through visited nodes. */
  ghost predicate Entry(s: Snapshot, start: Handle, visited: set<Handle>, v: Handle, p: seq<nat>)
  {
    && v in visited && StepPath(s, start, p) && DistinctWalk(s, start, p) && EndOf(s, start, p) == v
    && forall i | 0 <= i <= |p| :: Walk(s, start, p)[i] in visited
  }

  ghost predicate QueueOk(s: Snapshot, start: Handle, visited: set<Handle>, queue: seq<(Handle, seq<nat>)>)
  {
    forall k | 0 <= k < |queue| :: Entry(s, start, visited, queue[k].0, queue[k].1)
  }

  /** Every visited node off the queue, bar the ones in `busy`, is expanded. */
  ghost predicate ExpandedOff(s: Snapshot, visited: set<Handle>, queue: seq<(Handle, seq<nat>)>, busy: seq<Handle>)
  {
    forall u | u in visited && u !in Heads(queue) && u !in busy :: Expanded(s, u, visited)
  }

  /** Once a target other than `start` has left the queue, the longest offer is non-empty. */
  ghost predicate TargetsOffered(start: Handle, endGroup: set<Handle>, visited: set<Handle>,
                                 queue: seq<(Handle, seq<nat>)>, found: seq<seq<nat>>)
  {
    forall w | w in visited && w !in Heads(queue) && w in endGroup && w != start :: Longest(found) != []
  }

  ghost predicate AllCandidates(s: Snapshot, start: Handle, endGroup: set<Handle>, found: seq<seq<nat>>)
  {
    forall c | c in found :: Candidate(s, start, endGroup, c)
  }

  /** The nodes the offered paths end at, in the order of the offers. */
  function Ends(s: Snapshot, start: Handle, found: seq<seq<nat>>): (r: seq<Handle>)
    ensures |r| == |found| && forall k | 0 <= k < |found| :: r[k] == EndOf(s, start, found[k])
  {
    if found == [] then [] else Ends(s, start, found[..|found| - 1]) + [EndOf(s, start, found[|found| - 1])]
  }

  /**
   * Offers are made once per node, when it leaves the queue: every dequeued
   * target has offered its path, only dequeued nodes have, no node twice,
   * and no node waits on the queue twice.
   */
  ghost predicate Offered(s: Snapshot, start: Handle, endGroup: set<Handle>, visited: set<Handle>,
                          queue: seq<(Handle, seq<nat>)>, found: seq<seq<nat>>)
  {
    && (forall w | w in visited && w !in Heads(queue) && w in endGroup :: w in Ends(s, start, found))
    && (forall k | 0 <= k < |found| :: Ends(s, start, found)[k] in visited && Ends(s, start, found)[k] !in Heads(queue))
    && (forall i, j | 0 <= i < j < |found| :: Ends(s, start, found)[i] != Ends(s, start, found)[j])
    && (forall i, j | 0 <= i < j < |queue| :: queue[i].0 != queue[j].0)
  }

  /**
   * The BFS layering: queued paths are sorted by length and span at most two
   * lengths, `depth` and `depth + 1`; offered paths are sorted by length and
   * no longer than `depth`.
   */
  ghost predicate Layered(queue: seq<(Handle, seq<nat>)>, found: seq<seq<nat>>, depth: nat)
  {
    && (forall i, j | 0 <= i < j < |queue| :: |queue[i].1| <= |queue[j].1|)
    && (forall k | 0 <= k < |queue| :: depth <= |queue[k].1| <= depth + 1)
    && (forall i, j | 0 <= i < j < |found| :: |found[i]| <= |found[j]|)
    && (forall k | 0 <= k < |found| :: |found[k]| <= depth)
  }

  /**
   * The BFS state between two dequeues: the visited nodes are live, the
   * queue holds proper entries, every visited node off the queue (bar
   * `busy`, the node being expanded) is expanded, and the longest path so far
   * is non-empty as soon as a target other than `start` has been dequeued.
   */
  ghost predicate Searching(s: Snapshot, start: Handle, endGroup: set<Handle>, visited: set<Handle>,
                            queue: seq<(Handle, seq<nat>)>, busy: seq<Handle>, found: seq<seq<nat>>)
  {
    && start in visited && visited <= LiveSet(s)
    && QueueOk(s, start, visited, queue)
    && ExpandedOff(s, visited, queue, busy)
    && TargetsOffered(start, endGroup, visited, queue, found)
    && AllCandidates(s, start, endGroup, found)
  }

  /** The first `j` neighbours in `nbrs` are visited or not a BFS step away from `u`. */
  ghost predicate ScannedUpTo(s: Snapshot, u: Handle, nbrs: seq<Handle>, j: nat, visited: set<Handle>)
    requires j <= |nbrs|
  {
    forall k | 0 <= k < j :: nbrs[k] in visited || NotForward(s, u, nbrs[k])
  }

  /** One more neighbour handled, with the visited set possibly grown. */
  lemma ScannedExtend(s: Snapshot, u: Handle, nbrs: seq<Handle>, j: nat, visited: set<Handle>, visited': set<Handle>)
    requires j < |nbrs| && ScannedUpTo(s, u, nbrs, j, visited) && visited <= visited'
    requires nbrs[j] in visited' || NotForward(s, u, nbrs[j])
    ensures ScannedUpTo(s, u, nbrs, j + 1, visited')
  {
  }

  /** In a well-formed graph, the edge `find_edge` returns for `u` and a neighbour, when it points to the neighbour, leaves `u`. */
  lemma ForwardEdgeLeaves(s: Snapshot, u: Handle, v: Handle)
    requires WellFormed(s) && u in s.nodes && v in Nbrs(s, u)
    ensures FirstEdgeBetween(s, IdOf(s, u), IdOf(s, v)).Some?
    ensures var e := FirstEdgeBetween(s, IdOf(s, u), IdOf(s, v)).value;
            e < |s.edges| && (s.edges[e].dest == v ==> StepEdge(s, u, e))
  {
    NeighboursShareAnEdge(s, u, v);
    assert v in s.nodes && v != u;
  }

  /** Initially only `start` is visited, with the empty path. */
  lemma SearchInit(s: Snapshot, start: Handle, endGroup: set<Handle>)
    requires start in s.nodes
    ensures Searching(s, start, endGroup, {start}, [(start, [])], [], [])
  {
    assert Entry(s, start, {start}, start, []);
  }

  /** Taking the head off a proper queue leaves a proper queue. */
  lemma QueueTail(s: Snapshot, start: Handle, visited: set<Handle>, queue: seq<(Handle, seq<nat>)>)
    requires QueueOk(s, start, visited, queue) && queue != []
    ensures QueueOk(s, start, visited, queue[1..])
    ensures Entry(s, start, visited, queue[0].0, queue[0].1)
  {
    forall k | 0 <= k < |queue| - 1
      ensures Entry(s, start, visited, queue[1..][k].0, queue[1..][k].1)
    {
      assert queue[1..][k] == queue[k + 1];
    }
  }

  /** The dequeued node joins the busy ones. */
  lemma ExpandedDequeue(s: Snapshot, visited: set<Handle>, queue: seq<(Handle, seq<nat>)>)
    requires ExpandedOff(s, visited, queue, []) && queue != []
    ensures ExpandedOff(s, visited, queue[1..], [queue[0].0])
  {
    assert Heads(queue) == [queue[0].0] + Heads(queue[1..]);
  }

  /** A dequeued target other than `start` offers a non-empty path. */
  lemma TargetsDequeue(s: Snapshot, start: Handle, endGroup: set<Handle>, visited: set<Handle>,
                       queue: seq<(Handle, seq<nat>)>, found: seq<seq<nat>>)
    requires TargetsOffered(start, endGroup, visited, queue, found) && queue != []
    requires EndOf(s, start, queue[0].1) == queue[0].0
    ensures var found' := if queue[0].0 in endGroup then found + [queue[0].1] else found;
            TargetsOffered(start, endGroup, visited, queue[1..], found')
  {
    var current, path := queue[0].0, queue[0].1;
    assert Heads(queue) == [current] + Heads(queue[1..]);
    var found' := if current in endGroup then found + [path] else found;
    if current in endGroup {
      LongestGrows(found, path);
      if current != start {
        assert |path| > 0;
      }
    }
    forall w | w in visited && w !in Heads(queue[1..]) && w in endGroup && w != start
      ensures Longest(found') != []
    {
      if w != current {
        assert w !in Heads(queue);
      }
    }
  }

  /** Dequeuing `queue[0]`: record its path as a candidate when it is a target; it becomes the busy node. */
  lemma SearchDequeue(s: Snapshot, start: Handle, endGroup: set<Handle>, visited: set<Handle>,
                      queue: seq<(Handle, seq<nat>)>, found: seq<seq<nat>>)
    requires Searching(s, start, endGroup, visited, queue, [], found) && queue != []
    ensures var found' := if queue[0].0 in endGroup then found + [queue[0].1] else found;
            Searching(s, start, endGroup, visited, queue[1..], [queue[0].0], found')
    ensures Entry(s, start, visited, queue[0].0, queue[0].1) && queue[0].0 in s.nodes
  {
    QueueTail(s, start, visited, queue);
    ExpandedDequeue(s, visited, queue);
    TargetsDequeue(s, start, endGroup, visited, queue, found);
    if queue[0].0 in endGroup {
      assert AllCandidates(s, start, endGroup, found + [queue[0].1]);
    }
  }

  /** Entries stay proper when the visited set grows. */
  lemma EntryWiden(s: Snapshot, start: Handle, visited: set<Handle>, visited': set<Handle>, v: Handle, p: seq<nat>)
    requires Entry(s, start, visited, v, p) && visited <= visited'
    ensures Entry(s, start, visited', v, p)
  {
  }

  /** The path to the busy node, extended by a BFS step to an unvisited node, is a proper entry for it. */
  lemma EntryExtend(s: Snapshot, start: Handle, visited: set<Handle>, current: Handle, path: seq<nat>, e: nat)
    requires Entry(s, start, visited, current, path) && StepEdge(s, current, e)
    requires s.edges[e].dest !in visited
    ensures Entry(s, start, visited + {s.edges[e].dest}, s.edges[e].dest, path + [e])
  {
    var v := s.edges[e].dest;
    StepPathAppend(s, start, path, e);
    var p' := path + [e];
    assert Walk(s, start, p')[|p'|] == v;
  }

  /** Queueing a proper entry, with its node added to the visited set. */
  lemma QueueGrow(s: Snapshot, start: Handle, visited: set<Handle>, queue: seq<(Handle, seq<nat>)>, x: (Handle, seq<nat>))
    requires QueueOk(s, start, visited, queue) && Entry(s, start, visited + {x.0}, x.0, x.1)
    ensures QueueOk(s, start, visited + {x.0}, queue + [x])
  {
    forall k | 0 <= k < |queue| + 1
      ensures Entry(s, start, visited + {x.0}, (queue + [x])[k].0, (queue + [x])[k].1)
    {
      if k < |queue| {
        EntryWiden(s, start, visited, visited + {x.0}, queue[k].0, queue[k].1);
      }
    }
  }

  /** A newly visited node waits on the queue, so expanded nodes stay expanded. */
  lemma ExpandedGrow(s: Snapshot, visited: set<Handle>, queue: seq<(Handle, seq<nat>)>, busy: seq<Handle>,
                     x: (Handle, seq<nat>))
    requires ExpandedOff(s, visited, queue, busy)
    ensures ExpandedOff(s, visited + {x.0}, queue + [x], busy)
  {
    HeadsAppend(queue, x);
    forall u | u in visited + {x.0} && u !in Heads(queue + [x]) && u !in busy
      ensures Expanded(s, u, visited + {x.0})
    {
      assert u in visited && u !in Heads(queue);
    }
  }

  /** A newly visited node waits on the queue, so no target has newly left it. */
  lemma TargetsGrow(start: Handle, endGroup: set<Handle>, visited: set<Handle>, queue: seq<(Handle, seq<nat>)>,
                    x: (Handle, seq<nat>), found: seq<seq<nat>>)
    requires TargetsOffered(start, endGroup, visited, queue, found)
    ensures TargetsOffered(start, endGroup, visited + {x.0}, queue + [x], found)
  {
    HeadsAppend(queue, x);
  }

  /** Visiting neighbour `v` of the busy node through edge `e` and queueing it. */
  lemma SearchVisit(s: Snapshot, start: Handle, endGroup: set<Handle>, visited: set<Handle>,
                    queue: seq<(Handle, seq<nat>)>, current: Handle, path: seq<nat>, found: seq<seq<nat>>, e: nat)
    requires Searching(s, start, endGroup, visited, queue, [current], found)
    requires Entry(s, start, visited, current, path) && StepEdge(s, current, e)
    requires s.edges[e].dest !in visited && s.edges[e].dest in s.nodes
    ensures var v := s.edges[e].dest;
            Searching(s, start, endGroup, visited + {v}, queue + [(v, path + [e])], [current], found)
            && Entry(s, start, visited + {v}, current, path)
  {
    var x := (s.edges[e].dest, path + [e]);
    EntryExtend(s, start, visited, current, path, e);
    QueueGrow(s, start, visited, queue, x);
    ExpandedGrow(s, visited, queue, [current], x);
    TargetsGrow(start, endGroup, visited, queue, x, found);
    EntryWiden(s, start, visited, visited + {x.0}, current, path);
  }

  /** Visiting a new node brings the search closer to having visited every live node. */
  lemma VisitedShrinks(s: Snapshot, start: Handle, endGroup: set<Handle>, visited0: set<Handle>, visited: set<Handle>,
                       queue: seq<(Handle, seq<nat>)>, found: seq<seq<nat>>)
    requires Searching(s, start, endGroup, visited, queue, [], found)
    requires visited0 <= visited && visited0 != visited
    ensures LiveSet(s) - visited < LiveSet(s) - visited0
  {
    var x :| x in visited && x !in visited0;
    assert x in LiveSet(s) - visited0;
  }

  /** With the queue empty and nothing busy, the visited set is closed, so an empty answer means no path. */
  lemma SearchFinish(s: Snapshot, start: Handle, endGroup: set<Handle>, visited: set<Handle>, found: seq<seq<nat>>)
    requires Searching(s, start, endGroup, visited, [], [], found)
    ensures Longest(found) == [] ==> NoAugmentingFrom(s, start, endGroup)
    ensures Longest(found) != [] ==> |Longest(found)| > 0 && Candidate(s, start, endGroup, Longest(found))
  {
    if Longest(found) == [] {
      forall p | StepPath(s, start, p) && EndOf(s, start, p) != start
        ensures EndOf(s, start, p) !in endGroup
      {
        ClosedReach(s, start, visited, p);
      }
    }
  }

  /** One more offer adds its end to the list of ends. */
  lemma EndsAppend(s: Snapshot, start: Handle, found: seq<seq<nat>>, c: seq<nat>)
    ensures Ends(s, start, found + [c]) == Ends(s, start, found) + [EndOf(s, start, c)]
  {
    assert (found + [c])[..|found|] == found;
  }

  /** Initially nothing is offered and only `start` waits. */
  lemma OfferedInit(s: Snapshot, start: Handle, endGroup: set<Handle>)
    ensures Offered(s, start, endGroup, {start}, [(start, [])], [])
    ensures Layered([(start, [])], [], 0)
  {
    assert Heads([(start, [])]) == [start];
  }

  /** A node waiting once on the queue is not among the ones behind the head. */
  lemma HeadLeaves(queue: seq<(Handle, seq<nat>)>)
    requires queue != [] && forall i, j | 0 <= i < j < |queue| :: queue[i].0 != queue[j].0
    ensures Heads(queue) == [queue[0].0] + Heads(queue[1..])
    ensures queue[0].0 !in Heads(queue[1..])
    ensures forall i, j | 0 <= i < j < |queue| - 1 :: queue[1..][i].0 != queue[1..][j].0
  {
    forall k | 0 <= k < |queue| - 1
      ensures Heads(queue[1..])[k] != queue[0].0
    {
      assert queue[1..][k] == queue[k + 1];
    }
    forall i, j | 0 <= i < j < |queue| - 1
      ensures queue[1..][i].0 != queue[1..][j].0
    {
      assert queue[1..][i] == queue[i + 1] && queue[1..][j] == queue[j + 1];
    }
  }

  /** The head's offer, when made, names a node no earlier offer names, and every dequeued target is covered. */
  lemma OfferHead(ends: seq<Handle>, ends': seq<Handle>, visited: set<Handle>, endGroup: set<Handle>,
                  heads: seq<Handle>, current: Handle)
    requires forall w | w in visited && w !in [current] + heads && w in endGroup :: w in ends
    requires forall k | 0 <= k < |ends| :: ends[k] in visited && ends[k] !in [current] + heads
    requires forall i, j | 0 <= i < j < |ends| :: ends[i] != ends[j]
    requires current in visited && current !in heads
    requires ends' == if current in endGroup then ends + [current] else ends
    ensures forall w | w in visited && w !in heads && w in endGroup :: w in ends'
    ensures forall k | 0 <= k < |ends'| :: ends'[k] in visited && ends'[k] !in heads
    ensures forall i, j | 0 <= i < j < |ends'| :: ends'[i] != ends'[j]
  {
  }

  /** Dequeuing the head offers its path exactly when it is a target. */
  lemma OfferedDequeue(s: Snapshot, start: Handle, endGroup: set<Handle>, visited: set<Handle>,
                       queue: seq<(Handle, seq<nat>)>, found: seq<seq<nat>>)
    requires Offered(s, start, endGroup, visited, queue, found) && queue != []
    requires queue[0].0 in visited && EndOf(s, start, queue[0].1) == queue[0].0
    ensures var found' := if queue[0].0 in endGroup then found + [queue[0].1] else found;
            Offered(s, start, endGroup, visited, queue[1..], found')
  {
    var current := queue[0].0;
    var found' := if current in endGroup then found + [queue[0].1] else found;
    HeadLeaves(queue);
    if current in endGroup {
      EndsAppend(s, start, found, queue[0].1);
    }
    OfferHead(Ends(s, start, found), Ends(s, start, found'), visited, endGroup, Heads(queue[1..]), current);
  }

  /** Visiting a new node and queueing it keeps the offers as they are. */
  lemma OfferedVisit(s: Snapshot, start: Handle, endGroup: set<Handle>, visited: set<Handle>,
                     queue: seq<(Handle, seq<nat>)>, found: seq<seq<nat>>, x: (Handle, seq<nat>))
    requires Offered(s, start, endGroup, visited, queue, found)
    requires x.0 !in visited && forall k | 0 <= k < |queue| :: queue[k].0 in visited
    ensures Offered(s, start, endGroup, visited + {x.0}, queue + [x], found)
  {
    HeadsAppend(queue, x);
  }

  /** Dequeuing the head moves the depth to its length and keeps the layering. */
  lemma LayeredDequeue(queue: seq<(Handle, seq<nat>)>, found: seq<seq<nat>>, depth: nat, found': seq<seq<nat>>)
    requires Layered(queue, found, depth) && queue != []
    requires found' == found || found' == found + [queue[0].1]
    ensures Layered(queue[1..], found', |queue[0].1|)
  {
    forall i, j | 0 <= i < j < |queue| - 1
      ensures |queue[1..][i].1| <= |queue[1..][j].1|
    {
      assert queue[1..][i] == queue[i + 1] && queue[1..][j] == queue[j + 1];
    }
    forall k | 0 <= k < |queue| - 1
      ensures |queue[0].1| <= |queue[1..][k].1| <= |queue[0].1| + 1
    {
      assert queue[1..][k] == queue[k + 1];
    }
  }

  /** A path one longer than the node being expanded joins the back of the queue. */
  lemma LayeredVisit(queue: seq<(Handle, seq<nat>)>, found: seq<seq<nat>>, depth: nat, x: (Handle, seq<nat>))
    requires Layered(queue, found, depth) && |x.1| == depth + 1
    ensures Layered(queue + [x], found, depth)
  {
  }

  /**
   * With the queue empty and nothing busy, every target a BFS path reaches
   * has offered exactly one path, and the offers come in order of length.
   */
  lemma OfferedFinish(s: Snapshot, start: Handle, endGroup: set<Handle>, visited: set<Handle>,
                      found: seq<seq<nat>>, depth: nat)
    requires Searching(s, start, endGroup, visited, [], [], found)
    requires Offered(s, start, endGroup, visited, [], found) && Layered([], found, depth)
    ensures forall p | StepPath(s, start, p) && EndOf(s, start, p) in endGroup ::
              EndOf(s, start, p) in Ends(s, start, found)
    ensures forall i, j | 0 <= i < j < |found| ::
              EndOf(s, start, found[i]) != EndOf(s, start, found[j]) && |found[i]| <= |found[j]|
  {
    forall p | StepPath(s, start, p) && EndOf(s, start, p) in endGroup
      ensures EndOf(s, start, p) in Ends(s, start, found)
    {
      ClosedReach(s, start, visited, p);
    }
  }

  /**
   * The inner loop of `find_augmenting_path_bfs` for the dequeued `current`:
   * each unvisited neighbour whose `find_edge` edge points to it is visited
   * and queued with the path extended by that edge. Afterwards `current` is
   * expanded; the visited set only grew, and when it did not the queue is as
   * it was.
   */
  method ScanForward(g: Graph, start: Handle, endGroup: set<Handle>, current: Handle, path: seq<nat>,
                     visited0: set<Handle>, queue0: seq<(Handle, seq<nat>)>, ghost found: seq<seq<nat>>)
    returns (visited: set<Handle>, queue: seq<(Handle, seq<nat>)>)
    requires g.Valid() && current in g.nodeList
    requires Searching(g.Snap(), start, endGroup, visited0, queue0, [current], found)
    requires Entry(g.Snap(), start, visited0, current, path)
    requires Offered(g.Snap(), start, endGroup, visited0, queue0, found) && Layered(queue0, found, |path|)
    ensures Searching(g.Snap(), start, endGroup, visited, queue, [], found)
    ensures Offered(g.Snap(), start, endGroup, visited, queue, found) && Layered(queue, found, |path|)
    ensures visited0 <= visited && (visited == visited0 ==> queue == queue0)
  {
    ghost var s := g.Snap();
    visited, queue := visited0, queue0;
    var nbrs := g.store[current].neighbors;
    assert nbrs == Nbrs(s, current);
    for j := 0 to |nbrs|
      invariant Searching(s, start, endGroup, visited, queue, [current], found)
      invariant Entry(s, start, visited, current, path)
      invariant ScannedUpTo(s, current, nbrs, j, visited)
      invariant Offered(s, start, endGroup, visited, queue, found) && Layered(queue, found, |path|)
      invariant visited0 <= visited && (visited == visited0 ==> queue == queue0)
    {
      var neighbor := nbrs[j];
      if neighbor !in visited {
        ForwardEdgeLeaves(s, current, neighbor);
        assert neighbor in s.nodes;
        var edge := g.FindEdge(g.store[current].circleId, g.store[neighbor].circleId);
        assert edge == FirstEdgeBetween(s, IdOf(s, current), IdOf(s, neighbor));
        var e := edge.value;
        if g.edgeList[e].dest != neighbor {
          assert NotForward(s, current, neighbor);
          ScannedExtend(s, current, nbrs, j, visited, visited);
          continue;
        }
        SearchVisit(s, start, endGroup, visited, queue, current, path, found, e);
        OfferedVisit(s, start, endGroup, visited, queue, found, (neighbor, path + [e]));
        LayeredVisit(queue, found, |path|, (neighbor, path + [e]));
        ScannedExtend(s, current, nbrs, j, visited, visited + {neighbor});
        visited := visited + {neighbor};
        queue := queue + [(neighbor, path + [e])];
      } else {
        ScannedExtend(s, current, nbrs, j, visited, visited);
      }
    }
    assert Expanded(s, current, visited);
  }

  /**
   * One round of the outer loop of `find_augmenting_path_bfs`: dequeue the
   * head, offer its path when it is a target (keeping the strictly longest
   * offer), then expand it. Either more nodes are visited or the queue is
   * shorter.
   */
  method ExpandHead(g: Graph, start: Handle, endGroup: set<Handle>, visited0: set<Handle>,
                    queue0: seq<(Handle, seq<nat>)>, ghost found0: seq<seq<nat>>, maxPath0: seq<nat>,
                    ghost depth0: nat)
    returns (visited: set<Handle>, queue: seq<(Handle, seq<nat>)>, ghost found: seq<seq<nat>>, maxPath: seq<nat>,
             ghost depth: nat)
    requires g.Valid() && queue0 != []
    requires Searching(g.Snap(), start, endGroup, visited0, queue0, [], found0) && maxPath0 == Longest(found0)
    requires Offered(g.Snap(), start, endGroup, visited0, queue0, found0) && Layered(queue0, found0, depth0)
    ensures Searching(g.Snap(), start, endGroup, visited, queue, [], found) && maxPath == Longest(found)
    ensures Offered(g.Snap(), start, endGroup, visited, queue, found) && Layered(queue, found, depth)
    ensures LiveSet(g.Snap()) - visited < LiveSet(g.Snap()) - visited0 || (visited == visited0 && |queue| < |queue0|)
  {
    ghost var s := g.Snap();
    var current, path := queue0[0].0, queue0[0].1;
    SearchDequeue(s, start, endGroup, visited0, queue0, found0);
    OfferedDequeue(s, start, endGroup, visited0, queue0, found0);
    LayeredDequeue(queue0, found0, depth0, if current in endGroup then found0 + [path] else found0);
    found, maxPath, depth := found0, maxPath0, |path|;
    if current in endGroup {
      LongestAppend(found, path);
      found := found + [path];
      if |path| > |maxPath| {
        maxPath := path;
      }
    }
    visited, queue := ScanForward(g, start, endGroup, current, path, visited0, queue0[1..], found);
    if visited != visited0 {
      VisitedShrinks(s, start, endGroup, visited0, visited, queue, found);
    }
  }

  /**
   * `find_augmenting_path_bfs(node, end_group)`: BFS from `start` along
   * edges directed away from the node being expanded. Every dequeued node in
   * `endGroup` offers its path, and the answer is the first strictly longest
   * offered path (`found` lists the offers in order), or None when that is
   * empty. Every offer is a repetition-free BFS path into `endGroup`, and
   * None means no BFS path from `start` reaches `endGroup` at all.
   */
  method FindAugmentingPath(g: Graph, start: Handle, endGroup: set<Handle>)
    returns (r: Option<seq<nat>>, ghost found: seq<seq<nat>>)
    requires g.Valid() && start in g.nodeList
    ensures r == if Longest(found) == [] then None else Some(Longest(found))
    ensures forall c | c in found :: Candidate(g.Snap(), start, endGroup, c)
    ensures r.Some? ==> |r.value| > 0 && Candidate(g.Snap(), start, endGroup, r.value)
    ensures r.None? ==> NoAugmentingFrom(g.Snap(), start, endGroup)
    ensures forall p | StepPath(g.Snap(), start, p) && EndOf(g.Snap(), start, p) in endGroup ::
              EndOf(g.Snap(), start, p) in Ends(g.Snap(), start, found)
    ensures forall i, j | 0 <= i < j < |found| ::
              EndOf(g.Snap(), start, found[i]) != EndOf(g.Snap(), start, found[j]) && |found[i]| <= |found[j]|
    ensures forall k | 0 <= k < |found| :: |found[k]| <= |Longest(found)|
  {
    ghost var s := g.Snap();
    var visited: set<Handle> := {start};
    var queue: seq<(Handle, seq<nat>)> := [(start, [])];
    var maxPath: seq<nat> := [];
    found := [];
    ghost var depth: nat := 0;
    SearchInit(s, start, endGroup);
    OfferedInit(s, start, endGroup);
    while queue != []
      invariant Searching(s, start, endGroup, visited, queue, [], found)
      invariant Offered(s, start, endGroup, visited, queue, found) && Layered(queue, found, depth)
      invariant maxPath == Longest(found)
      decreases LiveSet(s) - visited, |queue|
    {
      visited, queue, found, maxPath, depth := ExpandHead(g, start, endGroup, visited, queue, found, maxPath, depth);
    }
    SearchFinish(s, start, endGroup, visited, found);
    OfferedFinish(s, start, endGroup, visited, found, depth);
    LongestIsFirstMaximum(found);
    if maxPath == [] {
      return None, found;
    }
    return Some(maxPath), found;
  }
}

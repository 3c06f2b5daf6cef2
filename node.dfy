/**
 * A graph node (GraphNode.py). Nodes live in an arena owned by the graph and
 * are referred to by their arena index, a `Handle`; that index plays the part
 * of the Python object reference, so two nodes may share a `circleId`.
 * The list operations `append` and `remove` that the node applies to its
 * neighbour list are given here as functions on sequences.
 */
module GraphNode {

  type Handle = nat

  /** The bipartite side; `NoGroup` is the string 'None' of a fresh node. */
  datatype Group = NoGroup | A | B

  datatype Node = Node(
    circleId: int,
    x: int,
    y: int,
    radius: int,
    color: int,
    group: Group,
    neighbors: seq<Handle>)

  /** The colour of a node that has not been coloured yet. */
  const Uncoloured: int := -1

  /** The radius `add_node` gives every node (20 times the default scale 1.0). */
  const DefaultRadius: int := 20

  /** `Node(x, y, circle_id)`: no colour, no group, no neighbours. */
  function NewNode(x: int, y: int, circleId: int): (n: Node)
    ensures n.circleId == circleId && n.x == x && n.y == y && n.radius == 20
    ensures n.color == Uncoloured && n.group == NoGroup && n.neighbors == []
  {
    Node(circleId, x, y, DefaultRadius, Uncoloured, NoGroup, [])
  }

  /** `list.remove(x)`: drops the first occurrence of `x`; Python raises when there is none. */
  function RemoveFirst(s: seq<Handle>, x: Handle): (r: seq<Handle>)
    requires x in s
    ensures |r| == |s| - 1
    ensures multiset(r)[x] == multiset(s)[x] - 1
  {
    assert s == [s[0]] + s[1..];
    if s[0] == x then s[1..] else [s[0]] + RemoveFirst(s[1..], x)
  }

  /** Only the first `x` goes: the entries around it keep their order. */
  lemma {:induction false} RemoveFirstSplit(a: seq<Handle>, x: Handle, b: seq<Handle>)
    requires x !in a
    ensures RemoveFirst(a + [x] + b, x) == a + b
  {
    var s := a + [x] + b;
    if a == [] {
      assert s == [x] + b;
    } else {
      var t := a[1..] + [x] + b;
      calc {
        RemoveFirst(s, x);
      == { assert s[0] == a[0] && s[1..] == t; }
        [a[0]] + RemoveFirst(t, x);
      == { RemoveFirstSplit(a[1..], x, b); }
        [a[0]] + (a[1..] + b);
      == { assert a == [a[0]] + a[1..]; }
        a + b;
      }
    }
  }

  /** `n` successive `list.remove(x)` calls on the same list. */
  function RemoveFirstN(s: seq<Handle>, x: Handle, n: nat): (r: seq<Handle>)
    requires n <= multiset(s)[x]
    ensures |r| == |s| - n
    ensures multiset(r)[x] == multiset(s)[x] - n
    decreases n
  {
    if n == 0 then s
    else
      var t := RemoveFirstN(s, x, n - 1);
      assert multiset(t)[x] > 0;
      RemoveFirst(t, x)
  }

  /** The list with every occurrence of `x` filtered out, the rest in order. */
  function Without(s: seq<Handle>, x: Handle): (r: seq<Handle>)
    ensures x !in r
  {
    if s == [] then []
    else
      assert s == [s[0]] + s[1..];
      if s[0] == x then Without(s[1..], x) else [s[0]] + Without(s[1..], x)
  }

  /** `list.remove(x)` takes away exactly one `x` and nothing else. */
  lemma {:induction false} RemoveFirstMultiset(s: seq<Handle>, x: Handle)
    requires x in s
    ensures multiset(RemoveFirst(s, x)) == multiset(s) - multiset{x}
  {
    assert s == [s[0]] + s[1..];
    if s[0] != x {
      RemoveFirstMultiset(s[1..], x);
    }
  }

  /** Removals of `x` leave the count of every other entry alone. */
  lemma {:induction false} RemoveFirstNKeepsOthers(s: seq<Handle>, x: Handle, n: nat, y: Handle)
    requires n <= multiset(s)[x] && y != x
    ensures multiset(RemoveFirstN(s, x, n))[y] == multiset(s)[y]
    decreases n
  {
    if n > 0 {
      var t: seq<Handle> := RemoveFirstN(s, x, n - 1);
      RemoveFirstNKeepsOthers(s, x, n - 1, y);
      assert multiset(t)[x] > 0;
      RemoveFirstMultiset(t, x);
    }
  }

  /** Filtering out `x` leaves the count of every other entry alone. */
  lemma {:induction false} WithoutKeepsOthers(s: seq<Handle>, x: Handle, y: Handle)
    requires y != x
    ensures multiset(Without(s, x))[y] == multiset(s)[y]
  {
    if s != [] {
      WithoutKeepsOthers(s[1..], x, y);
      assert s == [s[0]] + s[1..];
    }
  }

  lemma {:induction false} WithoutAbsent(s: seq<Handle>, x: Handle)
    requires x !in s
    ensures Without(s, x) == s
  {
    if s != [] {
      WithoutAbsent(s[1..], x);
    }
  }

  lemma {:induction false} WithoutRemoveFirst(s: seq<Handle>, x: Handle)
    requires x in s
    ensures Without(RemoveFirst(s, x), x) == Without(s, x)
  {
    if s[0] != x {
      WithoutRemoveFirst(s[1..], x);
      assert RemoveFirst(s, x)[1..] == RemoveFirst(s[1..], x);
    }
  }

  /**
   * Removing `x` as many times as it occurs leaves exactly the other
   * entries, in their original order.
   */
  lemma {:induction false} RemoveEveryOccurrence(s: seq<Handle>, x: Handle)
    ensures RemoveFirstN(s, x, multiset(s)[x]) == Without(s, x)
  {
    var n := multiset(s)[x];
    WithoutAfterRemovals(s, x, n);
    var r: seq<Handle> := RemoveFirstN(s, x, n);
    assert x !in r by {
      assert multiset(r)[x] == 0;
    }
    WithoutAbsent(r, x);
  }

  lemma {:induction false} WithoutAfterRemovals(s: seq<Handle>, x: Handle, n: nat)
    requires n <= multiset(s)[x]
    ensures Without(RemoveFirstN(s, x, n), x) == Without(s, x)
    decreases n
  {
    if n > 0 {
      var t: seq<Handle> := RemoveFirstN(s, x, n - 1);
      assert multiset(t)[x] == multiset(s)[x] - (n - 1);
      assert x in t;
      assert RemoveFirstN(s, x, n) == RemoveFirst(t, x);
      WithoutRemoveFirst(t, x);
      WithoutAfterRemovals(s, x, n - 1);
      calc {
        Without(RemoveFirstN(s, x, n), x);
        Without(RemoveFirst(t, x), x);
        Without(t, x);
        Without(s, x);
      }
    } else {
      assert RemoveFirstN(s, x, n) == s;
    }
  }
}

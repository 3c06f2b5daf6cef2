/**
 * A graph edge (GraphEdge.py): an ordered pair of node handles plus an id.
 * The order is the edge's current direction; `swap` reverses it in place,
 * which the graph does to its own copy of the record (see `Graph.SwapEdge`).
 */
module GraphEdge {

  import opened GraphNode

  datatype Edge = Edge(source: Handle, dest: Handle, id: int)

  /** The record after `swap`: the two endpoints exchanged. */
  function Swapped(e: Edge): Edge
  {
    e.(source := e.dest, dest := e.source)
  }

  /** The edge connects `u` and `v`, in either direction. */
  predicate Joins(e: Edge, u: Handle, v: Handle)
  {
    (e.source == u && e.dest == v) || (e.source == v && e.dest == u)
  }

  /** Swapping reverses the direction and keeps the id. */
  lemma SwapReverses(e: Edge)
    ensures Swapped(e).source == e.dest && Swapped(e).dest == e.source
    ensures Swapped(e).id == e.id
  {
  }

  /** Swapping twice restores the original orientation. */
  lemma SwapTwice(e: Edge)
    ensures Swapped(Swapped(e)) == e
  {
  }

  /** Swapping leaves the unordered endpoint pair as it was. */
  lemma SwapKeepsEndpoints(e: Edge, u: Handle, v: Handle)
    ensures Joins(Swapped(e), u, v) <==> Joins(e, u, v)
  {
  }
}

/**
 Values shared by the whole model: node handles, the `Path` edge record and the
 tentative distances a search stores on each node.
 */
module Paths {

  /** A node is named by its index in the graph. The source compares nodes only
      by reference (`===`), so an index is all the identity a node needs. */
  type Vertex = nat

  datatype Option<T> = None | Some(value: T)

  /** `Path(cost, node)`: an outgoing edge to `node` that costs `cost` to follow. */
  datatype Path = Path(cost: int, node: Vertex)

  /** A node's `distance`: a number, or `Infinity` before the search reaches it. */
  datatype Dist = Finite(value: int) | Infinity

  /** `n` copies of `x`: a field every node starts with the same value of. */
  function Repeat<T>(x: T, n: nat): (r: seq<T>)
    ensures |r| == n && forall i :: 0 <= i < n ==> r[i] == x
  {
    if n == 0 then [] else Repeat(x, n - 1) + [x]
  }

  /** JavaScript `d + cost` for a finite `cost`: `Infinity` absorbs it. */
  function Plus(d: Dist, cost: int): Dist
  {
    match d
    case Finite(x) => Finite(x + cost)
    case Infinity => Infinity
  }

  /** JavaScript `a < b` on distances: `Infinity` is above every number and not
      below itself. */
  predicate Below(a: Dist, b: Dist)
  {
    match (a, b)
    case (Finite(x), Finite(y)) => x < y
    case (Finite(_), Infinity) => true
    case (Infinity, _) => false
  }

  /** `a <= b` on distances. */
  predicate AtMost(a: Dist, b: Dist)
  {
    !Below(b, a)
  }

  /** JavaScript `<` on distances is a strict total order: no distance is below
      itself, below is transitive, and of two different distances one is below
      the other. */
  lemma BelowIsStrictOrder(a: Dist, b: Dist, c: Dist)
    ensures !Below(a, a)
    ensures Below(a, b) && Below(b, c) ==> Below(a, c)
    ensures a == b || Below(a, b) || Below(b, a)
  {
  }

  /** Adding one cost to two distances keeps their order, and `Infinity` stays
      `Infinity` whatever is added. */
  lemma PlusKeepsOrder(a: Dist, b: Dist, cost: int)
    ensures Below(a, b) ==> Below(Plus(a, cost), Plus(b, cost))
    ensures Plus(Infinity, cost) == Infinity
    ensures a.Finite? ==> Plus(a, cost) == Finite(a.value + cost)
  {
  }

  /** The edge list `ps` holds an entry to `v` of cost `c`. */
  predicate HasEdge(ps: seq<Path>, v: Vertex, c: int)
  {
    Path(c, v) in ps
  }

  /** Every entry of every edge list points at a node of the graph. */
  ghost predicate Closed(paths: seq<seq<Path>>)
  {
    forall u, k :: 0 <= u < |paths| && 0 <= k < |paths[u]| ==> paths[u][k].node < |paths|
  }

  /** No node has an edge to itself with a negative cost. */
  ghost predicate NoNegativeSelfLoop(paths: seq<seq<Path>>)
  {
    forall u, k :: 0 <= u < |paths| && 0 <= k < |paths[u]| && paths[u][k].node == u ==> paths[u][k].cost >= 0
  }

  /** No node has an edge to itself. */
  ghost predicate NoSelfLoop(paths: seq<seq<Path>>)
  {
    forall u, k :: 0 <= u < |paths| && 0 <= k < |paths[u]| ==> paths[u][k].node != u
  }
}

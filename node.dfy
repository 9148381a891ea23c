/**
 The `Node` objects of one graph. Node `i`'s fields are element `i` of four
 sequences held by one `Graph` object: its outgoing `paths`, and the search
 state `distance`, `visitedFrom` and `visited`.
 */
module Nodes {
  import opened Paths
  import opened EdgeLists
  import opened Relaxation

  /** Adding an edge between two nodes of the graph keeps every edge inside it. */
  lemma AddedClosed(paths: seq<seq<Path>>, from: Vertex, node: Vertex, cost: int)
    requires Closed(paths) && from < |paths| && node < |paths|
    ensures Closed(paths[from := AddedPath(paths[from], node, cost)])
  {
    var list := AddedPath(paths[from], node, cost);
    RemoveFirstWithin(paths[from], node, |paths|);
    assert forall k :: 0 <= k < |list| - 1 ==> list[k] == RemoveFirst(paths[from], node)[k];
  }

  class Graph {
    var paths: seq<seq<Path>>
    var distance: seq<Dist>
    var visitedFrom: seq<Option<Vertex>>
    var visited: seq<bool>

    /** Number of nodes. */
    function Size(): nat
      reads this
    {
      |paths|
    }

    /** One entry per node in every field; every edge and every `visitedFrom`
        link points at a node of this graph. */
    ghost predicate Valid()
      reads this
    {
      && |distance| == |paths|
      && |visitedFrom| == |paths|
      && |visited| == |paths|
      && Closed(paths)
      && forall v :: 0 <= v < |paths| && visitedFrom[v].Some? ==> visitedFrom[v].value < |paths|
    }

    /** The state every node has after `new Node(...)`: `distance` is
        `Infinity`, `visitedFrom` is `null`, `visited` is `false`. */
    ghost predicate Fresh()
      reads this
    {
      && (forall v :: 0 <= v < |distance| ==> distance[v] == Infinity)
      && (forall v :: 0 <= v < |visitedFrom| ==> visitedFrom[v] == None)
      && (forall v :: 0 <= v < |visited| ==> !visited[v])
    }

    /** The `distance` and `visitedFrom` fields of all nodes, as a value. */
    function State(): Tentative
      reads this
    {
      Tentative(distance, visitedFrom)
    }

    /** `new Node(name, paths)` for every node at once: node `i` starts with the
        edge list `initialPaths[i]` and fresh search state. */
    constructor (initialPaths: seq<seq<Path>>)
      requires Closed(initialPaths)
      ensures Valid() && Fresh()
      ensures paths == initialPaths
    {
      var n := |initialPaths|;
      paths := initialPaths;
      distance := seq(n, _ => Infinity);
      visitedFrom := seq(n, _ => None);
      visited := seq(n, _ => false);
    }

    /** `from.addOrientedPath(node, cost)`: drop the first entry of `from`'s
        list that goes to `node`, if any, and append `Path(cost, node)`. */
    method AddOrientedPath(from: Vertex, node: Vertex, cost: int)
      requires Valid() && from < Size() && node < Size()
      modifies this
      ensures Valid()
      ensures paths == old(paths)[from := AddedPath(old(paths)[from], node, cost)]
      ensures distance == old(distance) && visitedFrom == old(visitedFrom) && visited == old(visited)
    {
      var list := paths[from];
      var current := FindIndex(list, node);
      if current != -1 {
        SpliceRemovesFirst(list, node);
        list := list[..current] + list[current + 1..];
      }
      list := list + [Path(cost, node)];
      AddedClosed(paths, from, node, cost);
      paths := paths[from := list];
    }

    /** `from.addNonOrientedPath(node, cost)`: the edge `from -> node` and then
        the edge `node -> from`, each by the replacement rule. */
    method AddNonOrientedPath(from: Vertex, node: Vertex, cost: int)
      requires Valid() && from < Size() && node < Size()
      modifies this
      ensures Valid()
      ensures var mid := old(paths)[from := AddedPath(old(paths)[from], node, cost)];
        paths == mid[node := AddedPath(mid[node], from, cost)]
      ensures distance == old(distance) && visitedFrom == old(visitedFrom) && visited == old(visited)
    {
      AddOrientedPath(from, node, cost);
      AddOrientedPath(node, from, cost);
    }

    /** `from.calcNeighboursTentativeDistance()`: relax every entry of `from`
        whose target is not visited, in list order, and return those targets
        (improved or not; the empty list when there are none). */
    method CalcNeighboursTentativeDistance(from: Vertex) returns (nodes: seq<Vertex>)
      requires Valid() && from < Size()
      modifies this
      ensures Valid()
      ensures paths == old(paths) && visited == old(visited)
      ensures nodes == Targets(Unvisited(paths[from], visited))
      ensures State() == RelaxAll(old(State()), from, Unvisited(paths[from], visited))
    {
      var pathsNotVisited := Unvisited(paths[from], visited);
      // The source's `if (!pathsNotVisited) return null` never fires: an array
      // is always truthy, so the empty list goes on to be mapped and returned.
      var i := 0;
      while i < |pathsNotVisited|
        invariant 0 <= i <= |pathsNotVisited|
        invariant Valid() && paths == old(paths) && visited == old(visited)
        invariant State() == RelaxAll(old(State()), from, pathsNotVisited[..i])
      {
        var path := pathsNotVisited[i];
        var neighbourDistance := distance[path.node];
        var fromThisNodeDistance := Plus(distance[from], path.cost);
        if Below(fromThisNodeDistance, neighbourDistance) {
          distance := distance[path.node := fromThisNodeDistance];
          visitedFrom := visitedFrom[path.node := Some(from)];
        }
        assert pathsNotVisited[..i + 1][..i] == pathsNotVisited[..i];
        i := i + 1;
      }
      assert pathsNotVisited[..i] == pathsNotVisited;
      nodes := Targets(pathsNotVisited);
    }
  }
}

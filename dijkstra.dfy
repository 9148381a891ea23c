/**
 The class `Dijkstra`: the greedy walk of `shortestPathFirst` and the
 backtracking of `generatePath` along the `visitedFrom` links.
 */
module Dijkstra {
  import opened Paths
  import opened Relaxation
  import opened Nodes
  import opened Search
  import opened Walk

  /** What `shortestPathFirst` ends with: the path, or the node whose list of
      unvisited neighbours came out empty, where `reduce` throws. */
  datatype Outcome = Found(path: seq<Vertex>) | EmptyFrontier(at: Vertex)

  /** `Array.prototype.reverse`, on a value. */
  function Reverse<T>(s: seq<T>): (r: seq<T>)
    ensures |r| == |s|
    ensures forall i :: 0 <= i < |s| ==> r[i] == s[|s| - 1 - i]
    decreases |s|
  {
    if s == [] then [] else [s[|s| - 1]] + Reverse(s[..|s| - 1])
  }

  /** `recursiveGetVisitedFromNodes(endNode, listOfNodes)`: push `endNode`'s
      `visitedFrom`, then that node's, until a node without one. `rank` is a
      measure that falls along every link; it only proves the recursion ends. */
  method RecursiveGetVisitedFromNodes(g: Graph, endNode: Vertex, listOfNodes: seq<Vertex>, ghost rank: seq<nat>)
    returns (r: seq<Vertex>)
    requires g.Valid() && endNode < g.Size() && Ranked(g.visitedFrom, rank)
    ensures |r| >= |listOfNodes| && r[..|listOfNodes|] == listOfNodes
    ensures BackChain(g.visitedFrom, [endNode] + r[|listOfNodes|..])
    decreases rank[endNode]
  {
    if g.visitedFrom[endNode] == None {
      assert [endNode] + listOfNodes[|listOfNodes|..] == [endNode];
      return listOfNodes;
    }
    var previous := g.visitedFrom[endNode].value;
    r := RecursiveGetVisitedFromNodes(g, previous, listOfNodes + [previous], rank);
    assert r[..|listOfNodes|] == (listOfNodes + [previous])[..|listOfNodes|];
    assert r[|listOfNodes|..] == [previous] + r[|listOfNodes| + 1..];
  }

  /** `generatePath(endNode)`: the `visitedFrom` chain from `endNode`, turned
      round so that it ends at `endNode`. */
  method GeneratePath(g: Graph, endNode: Vertex, ghost rank: seq<nat>) returns (r: seq<Vertex>)
    requires g.Valid() && endNode < g.Size() && Ranked(g.visitedFrom, rank)
    ensures |r| > 0 && r[|r| - 1] == endNode
    ensures forall i :: 0 <= i < |r| ==> r[i] < g.Size()
    ensures g.visitedFrom[r[0]] == None
    ensures forall i :: 0 <= i < |r| - 1 ==> g.visitedFrom[r[i + 1]] == Some(r[i])
    ensures forall i, j :: 0 <= i < j < |r| ==> r[i] != r[j]
  {
    var result := RecursiveGetVisitedFromNodes(g, endNode, [endNode], rank);
    assert [endNode] + result[1..] == result;
    BackChainDescends(g.visitedFrom, rank, result);
    r := Reverse(result);
    forall i | 0 <= i < |r| - 1 ensures g.visitedFrom[r[i + 1]] == Some(r[i]) {
      var j := |result| - 2 - i;
      assert r[i + 1] == result[j] && r[i] == result[j + 1];
    }
  }

  /** One pass of the loop of `shortestPathFirst` at `node`: relax from it,
      mark it visited, and pick the next node, or find there is none. The
      ghost `c` is the walk's state before the pass; the pass does what
      `Advance` says of it. */
  method Visit(g: Graph, node: Vertex, ghost c: Config) returns (next: Option<Vertex>)
    requires g.Valid() && Shaped(g.paths, c) && node == c.node
    requires g.distance == c.t.dist && g.visitedFrom == c.t.from && g.visited == c.visited
    modifies g
    ensures g.Valid() && g.paths == old(g.paths)
    ensures next.None? <==> Advance(g.paths, c).None?
    ensures next.Some? ==>
      var c' := Advance(g.paths, c).value;
      && next.value == c'.node
      && g.distance == c'.t.dist && g.visitedFrom == c'.t.from && g.visited == c'.visited
    ensures next.None? ==>
      g.visited == c.visited[node := true] && g.distance == c.t.dist && g.visitedFrom == c.t.from
  {
    TargetsAt(Unvisited(g.paths[node], g.visited));
    var nodes := g.CalcNeighboursTentativeDistance(node);
    g.visited := g.visited[node := true];
    if nodes == [] {
      return None;
    }
    var k := ReduceMinimum(nodes, g.distance);
    next := Some(nodes[k]);
  }

  /** The loop of `shortestPathFirst` from `startNode`, on nodes fresh but
      for `startNode.distance = 0`: pass after pass until the current node
      is `endNode`, or until a pass finds no unvisited neighbour (`stuck`).
      The ghost `c` is the walk's state after `steps` passes. */
  method WalkToEnd(g: Graph, startNode: Vertex, endNode: Vertex)
    returns (stuck: bool, node: Vertex, ghost steps: nat, ghost c: Config)
    requires g.Valid() && startNode < g.Size() && endNode < g.Size() && startNode != endNode
    requires NoNegativeSelfLoop(g.paths)
    requires g.distance == Start(g.Size(), startNode).t.dist
    requires g.visitedFrom == Start(g.Size(), startNode).t.from
    requires g.visited == Start(g.Size(), startNode).visited
    modifies g
    ensures g.Valid() && g.paths == old(g.paths)
    ensures Run(g.paths, startNode, endNode, steps) == Some(c) && node == c.node
    ensures !stuck ==> node == endNode && g.distance == c.t.dist && g.visitedFrom == c.t.from && g.visited == c.visited
    ensures stuck ==> node != endNode && Advance(g.paths, c).None? && g.visited == c.visited[node := true]
    ensures stuck ==> g.distance == c.t.dist && g.visitedFrom == c.t.from
  {
    node := startNode;
    stuck := false;
    steps := 0;
    ghost var paths := g.paths;
    c := Start(|paths|, startNode);
    while node != endNode && !stuck
      invariant g.Valid() && g.paths == paths
      invariant Run(paths, startNode, endNode, steps) == Some(c) && node == c.node
      invariant !stuck ==> g.distance == c.t.dist && g.visitedFrom == c.t.from && g.visited == c.visited
      invariant stuck ==> node != endNode && Advance(paths, c).None? && g.visited == c.visited[node := true]
      invariant stuck ==> g.distance == c.t.dist && g.visitedFrom == c.t.from
      decreases 2 * |paths| - steps, if stuck then 0 else 1
    {
      RunShaped(paths, startNode, endNode, steps, c);
      var next := Visit(g, node, c);
      if next.None? {
        stuck := true;
      } else {
        node := next.value;
        c := Advance(paths, c).value;
        steps := steps + 1;
      }
    }
  }

  /** `generatePath(endNode)` once the loop of `shortestPathFirst` has
      reached `endNode` after `steps` iterations, in the state `c`: the path
      it reads off the `visitedFrom` links is a route from `startNode`. */
  method ReadPath(g: Graph, startNode: Vertex, endNode: Vertex, ghost steps: nat, ghost c: Config)
    returns (path: seq<Vertex>)
    requires g.Valid() && startNode < g.Size() && endNode < g.Size() && startNode != endNode
    requires NoNegativeSelfLoop(g.paths)
    requires Run(g.paths, startNode, endNode, steps) == Some(c) && c.node == endNode
    requires g.distance == c.t.dist && g.visitedFrom == c.t.from && g.visited == c.visited
    ensures Route(g.paths, g.distance, g.visitedFrom, startNode, endNode, path)
    ensures forall i :: 0 <= i < |path| - 1 ==> g.visited[path[i]]
    ensures !g.visited[endNode]
  {
    RunRanked(g.paths, startNode, endNode, steps, c);
    path := GeneratePath(g, endNode, Ranks(g.visited, c.stamp, steps));
    RunRoute(g.paths, startNode, endNode, steps, c, path);
  }

  /** `shortestPathFirst(startNode, endNode)` on a graph whose nodes are all
      fresh. Each iteration relaxes from the current node, marks it visited
      and moves to its closest unvisited neighbour; the walk ends on reaching
      `endNode`. `steps` counts the iterations; `c` is the walk's state after
      `last` of them, the state the nodes are left in. */
  method ShortestPathFirst(g: Graph, startNode: Vertex, endNode: Vertex) returns (result: Outcome, ghost steps: nat, ghost last: nat, ghost c: Config)
    requires g.Valid() && startNode < g.Size() && endNode < g.Size()
    requires g.Fresh()
    requires NoNegativeSelfLoop(g.paths)
    modifies g
    ensures g.Valid() && g.paths == old(g.paths)
    ensures startNode == endNode ==>
      && result == Found([])
      && g.distance == old(g.distance)
      && g.visitedFrom == old(g.visitedFrom)
      && g.visited == old(g.visited)
    ensures startNode != endNode && result.Found? ==>
      && Route(g.paths, g.distance, g.visitedFrom, startNode, endNode, result.path)
      && (forall i :: 0 <= i < |result.path| - 1 ==> g.visited[result.path[i]])
      && !g.visited[endNode]
    ensures result.EmptyFrontier? ==>
      && result.at < g.Size() && result.at != endNode && g.visited[result.at]
      && forall k :: 0 <= k < |g.paths[result.at]| ==> g.visited[g.paths[result.at][k].node]
    ensures startNode != endNode ==> Run(g.paths, startNode, endNode, last) == Some(c)
    ensures startNode != endNode && result.Found? ==>
      && c.node == endNode && steps == last
      && g.distance == c.t.dist && g.visitedFrom == c.t.from && g.visited == c.visited
    ensures result.EmptyFrontier? ==>
      && startNode != endNode && c.node == result.at && Advance(g.paths, c).None? && steps == last + 1
      && g.distance == c.t.dist && g.visitedFrom == c.t.from && g.visited == c.visited[result.at := true]
    ensures steps < 2 * g.Size()
    ensures NoSelfLoop(g.paths) ==> steps < g.Size()
  {
    steps, last, c := 0, 0, Start(g.Size(), startNode);
    if startNode == endNode {
      result := Found([]);
      return;
    }
    FreshStart(g.distance, g.visitedFrom, g.visited, startNode);
    g.distance := g.distance[startNode := Finite(0)];
    ghost var paths := g.paths;
    var stuck, node;
    stuck, node, last, c := WalkToEnd(g, startNode, endNode);
    steps := last;
    if stuck {
      RunStuck(paths, startNode, endNode, steps, c);
      steps := steps + 1;
      result := EmptyFrontier(node);
      return;
    }
    RunShaped(paths, startNode, endNode, steps, c);
    var path := ReadPath(g, startNode, endNode, steps, c);
    result := Found(path);
  }
}

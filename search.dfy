/**
 What one run of `shortestPathFirst` keeps true of the nodes' search state,
 and what the `visitedFrom` links it leaves behind say about the path that
 `generatePath` reads off them.
 */
module Search {
  import opened Paths
  import opened EdgeLists
  import opened Relaxation

  /** `p` is a fit `visitedFrom` for `v`: `p` is visited, was visited before
      `v` if `v` is, and `v`'s distance is `p`'s plus an edge `p -> v`. */
  ghost predicate Linked(paths: seq<seq<Path>>, t: Tentative, visited: seq<bool>, stamp: seq<nat>, p: Vertex, v: Vertex)
    requires Sized(t, |paths|) && |visited| == |paths| && |stamp| == |paths| && v < |paths|
  {
    && p < |paths|
    && visited[p]
    && (visited[v] ==> stamp[p] < stamp[v])
    && exists c :: HasEdge(paths[p], v, c) && t.dist[v] == Plus(t.dist[p], c)
  }

  /** The search state at the top of the loop of a run from `start`, after
      `steps` iterations; `stamp[v]` is the iteration that first marked `v`
      visited. */
  ghost predicate SearchInv(paths: seq<seq<Path>>, t: Tentative, visited: seq<bool>, stamp: seq<nat>, start: Vertex, steps: nat)
  {
    && Sized(t, |paths|) && |visited| == |paths| && |stamp| == |paths| && start < |paths|
    && t.dist[start] == Finite(0) && t.from[start] == None
    && (forall v :: 0 <= v < |paths| && visited[v] ==> t.dist[v].Finite? && stamp[v] < steps)
    && (forall v :: 0 <= v < |paths| && t.dist[v].Finite? && v != start ==> t.from[v].Some?)
    && (forall v :: 0 <= v < |paths| && t.from[v].Some? ==> Linked(paths, t, visited, stamp, t.from[v].value, v))
  }

  /** The stamps after marking `u` visited in iteration `steps`. */
  function NextStamp(visited: seq<bool>, stamp: seq<nat>, u: Vertex, steps: nat): seq<nat>
    requires u < |visited| && |stamp| == |visited|
  {
    if visited[u] then stamp else stamp[u := steps]
  }

  /** The entries relaxed from a node `u` at a finite distance: each goes to an
      unvisited node, which ends at a finite distance; none goes back to `u`
      at a negative cost, and none goes to `u` at all when no node has an edge
      to itself. */
  lemma StepTargets(paths: seq<seq<Path>>, t: Tentative, visited: seq<bool>, u: Vertex)
    requires Sized(t, |paths|) && |visited| == |paths| && Closed(paths) && NoNegativeSelfLoop(paths)
    requires u < |paths| && t.dist[u].Finite?
    ensures SelfSafe(Unvisited(paths[u], visited), u)
    ensures forall k :: 0 <= k < |Unvisited(paths[u], visited)| ==>
      && !visited[Unvisited(paths[u], visited)[k].node]
      && Unvisited(paths[u], visited)[k] in paths[u]
      && RelaxAll(t, u, Unvisited(paths[u], visited)).dist[Unvisited(paths[u], visited)[k].node].Finite?
    ensures NoSelfLoop(paths) ==>
      forall k :: 0 <= k < |Unvisited(paths[u], visited)| ==> Unvisited(paths[u], visited)[k].node != u
  {
    var ps := Unvisited(paths[u], visited);
    UnvisitedMembers(paths[u], visited);
    assert SelfSafe(paths[u], u);
    forall k | 0 <= k < |ps| ensures !visited[ps[k].node] && ps[k] in paths[u] {
      assert ps[k] in ps;
    }
    assert SelfSafe(ps, u);
    RelaxFromStable(t, u, ps);
    forall k | 0 <= k < |ps| ensures RelaxAll(t, u, ps).dist[ps[k].node].Finite? {
      assert AtMost(RelaxAll(t, u, ps).dist[ps[k].node], Plus(t.dist[u], ps[k].cost));
    }
  }

  /** After one iteration every `visitedFrom` link is still fit. */
  lemma StepLinks(paths: seq<seq<Path>>, t: Tentative, visited: seq<bool>, stamp: seq<nat>,
                  start: Vertex, steps: nat, u: Vertex, t': Tentative, visited': seq<bool>, stamp': seq<nat>)
    requires SearchInv(paths, t, visited, stamp, start, steps)
    requires Closed(paths) && NoNegativeSelfLoop(paths)
    requires u < |paths| && t.dist[u].Finite?
    requires t' == RelaxAll(t, u, Unvisited(paths[u], visited))
    requires visited' == visited[u := true] && stamp' == NextStamp(visited, stamp, u, steps)
    ensures forall v :: 0 <= v < |paths| && t'.from[v].Some? ==> Linked(paths, t', visited', stamp', t'.from[v].value, v)
  {
    forall v | 0 <= v < |paths| && t'.from[v].Some?
      ensures Linked(paths, t', visited', stamp', t'.from[v].value, v)
    {
      if t'.dist[v] != t.dist[v] {
        LinkNew(paths, t, visited, stamp, start, steps, u, t', visited', stamp', v);
      } else {
        LinkKept(paths, t, visited, stamp, start, steps, u, t', visited', stamp', v);
      }
    }
  }

  /** A node whose distance the iteration lowered is fitly linked to `u`. */
  lemma LinkNew(paths: seq<seq<Path>>, t: Tentative, visited: seq<bool>, stamp: seq<nat>,
                start: Vertex, steps: nat, u: Vertex, t': Tentative, visited': seq<bool>, stamp': seq<nat>, v: Vertex)
    requires SearchInv(paths, t, visited, stamp, start, steps)
    requires Closed(paths) && NoNegativeSelfLoop(paths)
    requires u < |paths| && t.dist[u].Finite?
    requires t' == RelaxAll(t, u, Unvisited(paths[u], visited))
    requires visited' == visited[u := true] && stamp' == NextStamp(visited, stamp, u, steps)
    requires v < |paths| && t'.dist[v] != t.dist[v]
    ensures t'.from[v] == Some(u) && Linked(paths, t', visited', stamp', u, v)
  {
    var ps := Unvisited(paths[u], visited);
    StepTargets(paths, t, visited, u);
    RelaxMonotone(t, u, ps);
    RelaxFromStable(t, u, ps);
    var k :| 0 <= k < |ps| && ps[k].node == v && t'.dist[v] == Plus(t.dist[u], ps[k].cost);
    assert HasEdge(paths[u], v, ps[k].cost);
    assert !visited'[v];
  }

  /** A node whose distance the iteration left alone keeps a fit link. */
  lemma LinkKept(paths: seq<seq<Path>>, t: Tentative, visited: seq<bool>, stamp: seq<nat>,
                 start: Vertex, steps: nat, u: Vertex, t': Tentative, visited': seq<bool>, stamp': seq<nat>, v: Vertex)
    requires SearchInv(paths, t, visited, stamp, start, steps)
    requires Closed(paths) && u < |paths|
    requires t' == RelaxAll(t, u, Unvisited(paths[u], visited))
    requires visited' == visited[u := true] && stamp' == NextStamp(visited, stamp, u, steps)
    requires v < |paths| && t'.from[v].Some? && t'.dist[v] == t.dist[v]
    ensures Linked(paths, t', visited', stamp', t'.from[v].value, v)
  {
    RelaxMonotone(t, u, Unvisited(paths[u], visited));
    RelaxUnvisited(t, u, paths[u], visited);
    var p := t.from[v].value;
    assert Linked(paths, t, visited, stamp, p, v);
    var c :| HasEdge(paths[p], v, c) && t.dist[v] == Plus(t.dist[p], c);
    assert t'.dist[p] == t.dist[p];
    assert HasEdge(paths[p], v, c) && t'.dist[v] == Plus(t'.dist[p], c);
  }

  /** One iteration, relaxing from `u` and marking `u` visited, keeps the
      invariant. */
  lemma StepPreserves(paths: seq<seq<Path>>, t: Tentative, visited: seq<bool>, stamp: seq<nat>,
                      start: Vertex, steps: nat, u: Vertex)
    requires SearchInv(paths, t, visited, stamp, start, steps)
    requires Closed(paths) && NoNegativeSelfLoop(paths)
    requires u < |paths| && t.dist[u].Finite? && (visited[start] || u == start)
    ensures SearchInv(paths, RelaxAll(t, u, Unvisited(paths[u], visited)), visited[u := true],
                      NextStamp(visited, stamp, u, steps), start, steps + 1)
  {
    var t' := RelaxAll(t, u, Unvisited(paths[u], visited));
    var visited' := visited[u := true];
    var stamp' := NextStamp(visited, stamp, u, steps);
    StepVisited(paths, t, visited, stamp, start, steps, u, t', visited', stamp');
    StepReached(paths, t, visited, stamp, start, steps, u, t');
    StepLinks(paths, t, visited, stamp, start, steps, u, t', visited', stamp');
  }

  /** After one iteration `start` keeps distance zero and no `visitedFrom`,
      and every visited node has a finite distance and an earlier stamp. */
  lemma StepVisited(paths: seq<seq<Path>>, t: Tentative, visited: seq<bool>, stamp: seq<nat>,
                    start: Vertex, steps: nat, u: Vertex, t': Tentative, visited': seq<bool>, stamp': seq<nat>)
    requires SearchInv(paths, t, visited, stamp, start, steps)
    requires Closed(paths) && NoNegativeSelfLoop(paths)
    requires u < |paths| && t.dist[u].Finite? && (visited[start] || u == start)
    requires t' == RelaxAll(t, u, Unvisited(paths[u], visited))
    requires visited' == visited[u := true] && stamp' == NextStamp(visited, stamp, u, steps)
    ensures t'.dist[start] == Finite(0) && t'.from[start] == None
    ensures forall v :: 0 <= v < |paths| && visited'[v] ==> t'.dist[v].Finite? && stamp'[v] < steps + 1
  {
    StepTargets(paths, t, visited, u);
    RelaxUnvisited(t, u, paths[u], visited);
    forall v | 0 <= v < |paths| && visited'[v] ensures t'.dist[v].Finite? && stamp'[v] < steps + 1 {
      assert t'.dist[v] == t.dist[v];
    }
  }

  /** After one iteration every node at a finite distance other than `start`
      still has a `visitedFrom`. */
  lemma StepReached(paths: seq<seq<Path>>, t: Tentative, visited: seq<bool>, stamp: seq<nat>,
                    start: Vertex, steps: nat, u: Vertex, t': Tentative)
    requires SearchInv(paths, t, visited, stamp, start, steps)
    requires Closed(paths) && u < |paths|
    requires t' == RelaxAll(t, u, Unvisited(paths[u], visited))
    ensures forall v :: 0 <= v < |paths| && t'.dist[v].Finite? && v != start ==> t'.from[v].Some?
  {
    RelaxMonotone(t, u, Unvisited(paths[u], visited));
  }

  /** Every set of nodes of an `n`-node graph has at most `n` members. */
  lemma {:induction false} CardBound(s: set<Vertex>, n: nat)
    requires forall v :: v in s ==> v < n
    ensures |s| <= n
    decreases n
  {
    if n > 0 {
      CardBound(s - {n - 1}, n - 1);
    }
  }

  /** The nodes of `r` are joined in turn by edges whose costs account for the
      growth of the distance from one node to the next. */
  ghost predicate Joined(paths: seq<seq<Path>>, dist: seq<Dist>, r: seq<Vertex>)
  {
    && (forall i :: 0 <= i < |r| ==> r[i] < |paths| && r[i] < |dist|)
    && forall i :: 0 <= i < |r| - 1 ==> Step(paths, dist, r[i], r[i + 1])
  }

  /** Some edge `a -> b` accounts for the growth of the distance from `a` to
      `b`. */
  ghost predicate Step(paths: seq<seq<Path>>, dist: seq<Dist>, a: Vertex, b: Vertex)
    requires a < |paths| && a < |dist| && b < |dist|
  {
    exists c :: HasEdge(paths[a], b, c) && dist[b] == Plus(dist[a], c)
  }

  function Sum(cs: seq<int>): int
  {
    if cs == [] then 0 else Sum(cs[..|cs| - 1]) + cs[|cs| - 1]
  }

  /** A cost for each step of a joined path: that of an edge between the two
      nodes that accounts for the growth of the distance. */
  ghost function EdgeCosts(paths: seq<seq<Path>>, dist: seq<Dist>, r: seq<Vertex>): (cs: seq<int>)
    requires |r| > 0 && Joined(paths, dist, r)
    ensures |cs| == |r| - 1
    ensures forall i :: 0 <= i < |cs| ==>
      HasEdge(paths[r[i]], r[i + 1], cs[i]) && dist[r[i + 1]] == Plus(dist[r[i]], cs[i])
    decreases |r|
  {
    if |r| == 1 then []
    else
      var init := r[..|r| - 1];
      assert forall i :: 0 <= i < |init| ==> init[i] == r[i];
      assert Joined(paths, dist, init) by {
        forall i | 0 <= i < |init| - 1 ensures Step(paths, dist, init[i], init[i + 1]) {
          assert init[i] == r[i] && init[i + 1] == r[i + 1];
          assert Step(paths, dist, r[i], r[i + 1]);
        }
      }
      var i := |r| - 2;
      assert Step(paths, dist, r[i], r[i + 1]);
      var c :| HasEdge(paths[r[i]], r[i + 1], c) && dist[r[i + 1]] == Plus(dist[r[i]], c);
      EdgeCosts(paths, dist, init) + [c]
  }

  /** Along a path from a node at distance 0 whose every step adds its cost,
      the last node's distance is the sum of the costs. */
  lemma {:induction false} CostAlong(dist: seq<Dist>, r: seq<Vertex>, cs: seq<int>)
    requires |r| > 0 && |cs| == |r| - 1 && (forall i :: 0 <= i < |r| ==> r[i] < |dist|)
    requires dist[r[0]] == Finite(0)
    requires forall i :: 0 <= i < |cs| ==> dist[r[i + 1]] == Plus(dist[r[i]], cs[i])
    ensures dist[r[|r| - 1]] == Finite(Sum(cs))
    decreases |r|
  {
    if |r| > 1 {
      var init := r[..|r| - 1];
      var cinit := cs[..|cs| - 1];
      assert forall i :: 0 <= i < |init| ==> init[i] == r[i];
      assert forall i :: 0 <= i < |cinit| ==> cinit[i] == cs[i];
      CostAlong(dist, init, cinit);
    }
  }

  /** What a successful search leaves: `r` runs from `start` to `end` without
      repeating a node, each node's `visitedFrom` is the one before it, and
      the distances grow along the edges that join them. */
  ghost predicate Route(paths: seq<seq<Path>>, dist: seq<Dist>, from: seq<Option<Vertex>>,
                        start: Vertex, end: Vertex, r: seq<Vertex>)
  {
    && |dist| == |paths| && |from| == |paths| && start < |paths|
    && |r| >= 2 && r[0] == start && r[|r| - 1] == end
    && (forall i, j :: 0 <= i < j < |r| ==> r[i] != r[j])
    && dist[start] == Finite(0) && from[start] == None
    && Joined(paths, dist, r)
    && forall i :: 0 <= i < |r| - 1 ==> from[r[i + 1]] == Some(r[i])
  }

  /** The end of a route is as far from the start as its edges cost in all. */
  lemma RouteCost(paths: seq<seq<Path>>, dist: seq<Dist>, from: seq<Option<Vertex>>,
                  start: Vertex, end: Vertex, r: seq<Vertex>)
    requires Route(paths, dist, from, start, end, r)
    ensures var cs := EdgeCosts(paths, dist, r);
      && |cs| == |r| - 1
      && (forall i :: 0 <= i < |cs| ==> HasEdge(paths[r[i]], r[i + 1], cs[i]))
      && dist[end] == Finite(Sum(cs))
  {
    CostAlong(dist, r, EdgeCosts(paths, dist, r));
  }

  /** Following `visitedFrom` from `list[0]` visits `list` in order and stops
      at a node whose `visitedFrom` is `null`. */
  ghost predicate BackChain(from: seq<Option<Vertex>>, list: seq<Vertex>)
  {
    && |list| > 0
    && (forall i :: 0 <= i < |list| ==> list[i] < |from|)
    && from[list[|list| - 1]] == None
    && forall i :: 0 <= i < |list| - 1 ==> from[list[i]] == Some(list[i + 1])
  }

  /** `rank` strictly falls along every `visitedFrom` link, so following the
      links cannot go round a cycle. */
  ghost predicate Ranked(from: seq<Option<Vertex>>, rank: seq<nat>)
  {
    && |rank| == |from|
    && forall v :: 0 <= v < |from| && from[v].Some? ==> from[v].value < |from| && rank[from[v].value] < rank[v]
  }

  /** Along a back chain the rank falls strictly, so no node repeats. */
  lemma {:induction false} BackChainDescends(from: seq<Option<Vertex>>, rank: seq<nat>, list: seq<Vertex>)
    requires Ranked(from, rank) && BackChain(from, list)
    ensures forall i, j :: 0 <= i < j < |list| ==> rank[list[j]] < rank[list[i]]
    ensures forall i, j :: 0 <= i < j < |list| ==> list[i] != list[j]
    decreases |list|
  {
    if |list| > 1 {
      var tail := list[1..];
      assert forall i :: 0 <= i < |tail| ==> tail[i] == list[i + 1];
      assert BackChain(from, tail);
      BackChainDescends(from, rank, tail);
      assert rank[list[1]] < rank[list[0]];
      forall i, j | 0 <= i < j < |list| ensures rank[list[j]] < rank[list[i]] {
        if 0 < i {
          assert rank[tail[j - 1]] < rank[tail[i - 1]];
        } else if 1 < j {
          assert rank[tail[j - 1]] < rank[tail[0]];
        }
      }
    }
  }

  /** The rank a search run supplies: the visit stamp of a visited node, and
      `steps` for a node not yet visited. */
  function Ranks(visited: seq<bool>, stamp: seq<nat>, steps: nat): (rank: seq<nat>)
    requires |stamp| == |visited|
    ensures |rank| == |visited|
    ensures forall v :: 0 <= v < |visited| ==> rank[v] == if visited[v] then stamp[v] else steps
  {
    seq(|visited|, v requires 0 <= v < |visited| => if visited[v] then stamp[v] else steps)
  }

  /** The `visitedFrom` links of a run are ranked by visit order. */
  lemma SearchRanked(paths: seq<seq<Path>>, t: Tentative, visited: seq<bool>, stamp: seq<nat>,
                     start: Vertex, steps: nat)
    requires SearchInv(paths, t, visited, stamp, start, steps)
    ensures Ranked(t.from, Ranks(visited, stamp, steps))
  {
    var rank := Ranks(visited, stamp, steps);
    forall v | 0 <= v < |t.from| && t.from[v].Some?
      ensures t.from[v].value < |t.from| && rank[t.from[v].value] < rank[v]
    {
      assert Linked(paths, t, visited, stamp, t.from[v].value, v);
    }
  }

  /** The visited-from chain of an unvisited, reached `end`, read from start
      to end, is a route from `start`, and every node on it but `end` is
      visited. */
  lemma ChainIsRoute(paths: seq<seq<Path>>, t: Tentative, visited: seq<bool>, stamp: seq<nat>,
                     start: Vertex, steps: nat, end: Vertex, r: seq<Vertex>)
    requires SearchInv(paths, t, visited, stamp, start, steps)
    requires end < |paths| && end != start && t.dist[end].Finite?
    requires |r| > 0 && r[|r| - 1] == end && (forall i :: 0 <= i < |r| ==> r[i] < |paths|)
    requires t.from[r[0]] == None
    requires forall i :: 0 <= i < |r| - 1 ==> t.from[r[i + 1]] == Some(r[i])
    requires forall i, j :: 0 <= i < j < |r| ==> r[i] != r[j]
    ensures Route(paths, t.dist, t.from, start, end, r)
    ensures forall i :: 0 <= i < |r| - 1 ==> visited[r[i]]
  {
    forall i | 0 <= i < |r| - 1
      ensures visited[r[i]]
      ensures Step(paths, t.dist, r[i], r[i + 1])
    {
      assert Linked(paths, t, visited, stamp, r[i], r[i + 1]);
    }
    if |r| > 1 {
      assert visited[r[0]];
    }
    assert t.dist[r[0]].Finite?;
    assert r[0] == start;
    assert Joined(paths, t.dist, r);
  }
}

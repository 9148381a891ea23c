/**
 The greedy walk of `shortestPathFirst` on values: one iteration as a
 function, the walk after `k` iterations, what holds of every state it goes
 through, why it ends, and how many iterations it can take.
 */
module Walk {
  import opened Paths
  import opened EdgeLists
  import opened Relaxation
  import opened Search

  /** `nodes.reduce((prev, current) => prev.distance < current.distance ? prev : current)`,
      as the index of the element it returns. */
  function ReduceMinimum(nodes: seq<Vertex>, dist: seq<Dist>): (k: nat)
    requires |nodes| > 0 && forall j :: 0 <= j < |nodes| ==> nodes[j] < |dist|
    ensures k < |nodes|
    decreases |nodes|
  {
    if |nodes| == 1 then 0
    else
      var init := nodes[..|nodes| - 1];
      assert forall j :: 0 <= j < |init| ==> init[j] == nodes[j];
      var k := ReduceMinimum(init, dist);
      if Below(dist[nodes[k]], dist[nodes[|nodes| - 1]]) then k else |nodes| - 1
  }

  /** `reduce` returns a node of minimal distance, and of those the last,
      since `prev` survives only when it is strictly smaller. */
  lemma {:induction false} ReduceIsMinimal(nodes: seq<Vertex>, dist: seq<Dist>)
    requires |nodes| > 0 && forall j :: 0 <= j < |nodes| ==> nodes[j] < |dist|
    ensures var k := ReduceMinimum(nodes, dist);
      forall j :: 0 <= j < |nodes| ==> AtMost(dist[nodes[k]], dist[nodes[j]])
    ensures var k := ReduceMinimum(nodes, dist);
      forall j :: k < j < |nodes| ==> Below(dist[nodes[k]], dist[nodes[j]])
    decreases |nodes|
  {
    if |nodes| > 1 {
      var init := nodes[..|nodes| - 1];
      assert forall j :: 0 <= j < |init| ==> init[j] == nodes[j];
      ReduceIsMinimal(init, dist);
    }
  }

  /** The state of the walk at the top of the loop: every node's `distance`
      and `visitedFrom`, their `visited` flags and the current `node`, with
      what the proof keeps of the past: `stamp[v]`, the iteration that first
      marked `v` visited, the set `done` of visited nodes, and the number of
      iterations so far. */
  datatype Config = Config(t: Tentative, visited: seq<bool>, node: Vertex,
                           stamp: seq<nat>, done: set<Vertex>, steps: nat)

  /** Every field has one entry per node and `node` is a node. */
  ghost predicate Shaped(paths: seq<seq<Path>>, c: Config)
  {
    && Closed(paths)
    && Sized(c.t, |paths|) && |c.visited| == |paths| && |c.stamp| == |paths|
    && c.node < |paths|
  }

  /** One iteration of the loop: relax the unvisited entries of `node`, mark
      `node` visited and move to the target `reduce` picks; `None` when there
      is no unvisited target, where `reduce` throws. */
  ghost function Advance(paths: seq<seq<Path>>, c: Config): (r: Option<Config>)
    requires Shaped(paths, c)
    ensures r.Some? ==> Shaped(paths, r.value)
  {
    assert Within(paths[c.node], |c.visited|);
    var ps := Unvisited(paths[c.node], c.visited);
    var nodes := Targets(ps);
    TargetsAt(ps);
    if nodes == [] then None
    else
      var t' := RelaxAll(c.t, c.node, ps);
      Some(Config(t', c.visited[c.node := true], nodes[ReduceMinimum(nodes, t'.dist)],
                  NextStamp(c.visited, c.stamp, c.node, c.steps), c.done + {c.node}, c.steps + 1))
  }

  /** The walk from `start` on fresh nodes after `k` iterations, or `None`
      once it has stopped, on reaching `end` or on finding no unvisited
      neighbour. */
  ghost function Run(paths: seq<seq<Path>>, start: Vertex, end: Vertex, k: nat): (r: Option<Config>)
    requires Closed(paths) && start < |paths|
    ensures r.Some? ==> Shaped(paths, r.value)
    decreases k
  {
    if k == 0 then Some(Start(|paths|, start))
    else
      match Run(paths, start, end, k - 1)
      case None => None
      case Some(c) => if c.node == end then None else Advance(paths, c)
  }

  /** A state the walk from `start` to `end` can reach: the search invariant,
      a current node at finite distance, and the bookkeeping. */
  ghost predicate WalkInv(paths: seq<seq<Path>>, start: Vertex, end: Vertex, c: Config)
  {
    && SearchInv(paths, c.t, c.visited, c.stamp, start, c.steps)
    && c.node < |paths| && c.t.dist[c.node].Finite?
    && Tally(paths, c.visited, start, end, c.node, c.done, c.steps)
  }

  /** The bookkeeping of the walk. A node is visited at most twice: once when
      it is first reached, and once more when it picks itself again through
      an edge to itself. */
  ghost predicate Tally(paths: seq<seq<Path>>, visited: seq<bool>, start: Vertex, end: Vertex,
                        node: Vertex, done: set<Vertex>, steps: nat)
  {
    && |visited| == |paths| && start < |paths| && end < |paths| && node < |paths|
    && (forall v :: v in done ==> v < |paths| && visited[v])
    && (forall v :: 0 <= v < |paths| && visited[v] ==> v in done)
    && !visited[end]
    && (visited[start] || node == start)
    && steps + (if visited[node] then 1 else 0) <= 2 * |done|
    && (NoSelfLoop(paths) ==> !visited[node] && steps == |done|)
  }

  /** The walk's first state: every node fresh but for
      `startNode.distance = 0`, the walk at `start`. */
  function Start(n: nat, start: Vertex): (c: Config)
    ensures |c.t.dist| == n && |c.visited| == n
  {
    var dist := if start < n then Repeat(Infinity, n)[start := Finite(0)] else Repeat(Infinity, n);
    Config(Tentative(dist, Repeat(None, n)), Repeat(false, n), start, Repeat(0, n), {}, 0)
  }

  /** Fresh nodes with `startNode.distance = 0` are the walk's first state. */
  lemma FreshStart(dist: seq<Dist>, from: seq<Option<Vertex>>, visited: seq<bool>, start: Vertex)
    requires |from| == |dist| && |visited| == |dist| && start < |dist|
    requires forall v :: 0 <= v < |dist| ==> dist[v] == Infinity
    requires forall v :: 0 <= v < |from| ==> from[v] == None
    requires forall v :: 0 <= v < |visited| ==> !visited[v]
    ensures dist[start := Finite(0)] == Start(|dist|, start).t.dist
    ensures from == Start(|dist|, start).t.from && visited == Start(|dist|, start).visited
  {
  }

  /** The walk starts in a state it can reach. */
  lemma WalkStart(paths: seq<seq<Path>>, start: Vertex, end: Vertex)
    requires start < |paths| && end < |paths| && start != end
    ensures WalkInv(paths, start, end, Start(|paths|, start))
  {
  }

  /** An iteration that moves on keeps the invariant. */
  lemma AdvanceKeeps(paths: seq<seq<Path>>, start: Vertex, end: Vertex, c: Config)
    requires Shaped(paths, c) && NoNegativeSelfLoop(paths)
    requires WalkInv(paths, start, end, c) && c.node != end
    requires Advance(paths, c).Some?
    ensures WalkInv(paths, start, end, Advance(paths, c).value)
  {
    var ps := Unvisited(paths[c.node], c.visited);
    var nodes := Targets(ps);
    TargetsAt(ps);
    StepTargets(paths, c.t, c.visited, c.node);
    StepPreserves(paths, c.t, c.visited, c.stamp, start, c.steps, c.node);
    var k := ReduceMinimum(nodes, RelaxAll(c.t, c.node, ps).dist);
    assert nodes[k] == ps[k].node && ps[k] in paths[c.node];
    TallyStep(paths, c.visited, start, end, c.node, c.done, c.steps, ps[k]);
  }

  /** The bookkeeping after an iteration from `node` that moves on along the
      entry `p` of `node` to an unvisited node. */
  lemma TallyStep(paths: seq<seq<Path>>, visited: seq<bool>, start: Vertex, end: Vertex,
                  node: Vertex, done: set<Vertex>, steps: nat, p: Path)
    requires Tally(paths, visited, start, end, node, done, steps) && node != end
    requires p in paths[node] && p.node < |paths| && !visited[p.node]
    ensures Tally(paths, visited[node := true], start, end, p.node, done + {node}, steps + 1)
  {
    var visited' := visited[node := true];
    var done' := done + {node};
    assert end !in done;
    if NoSelfLoop(paths) {
      var k :| 0 <= k < |paths[node]| && paths[node][k] == p;
      assert p.node != node;
    }
    assert p.node != node ==> !visited'[p.node];
    if visited[node] {
      assert done' == done;
    } else {
      assert node !in done;
      assert |done'| == |done| + 1;
    }
  }

  /** Every state the walk reaches keeps the invariant and has counted its
      iterations. */
  lemma {:induction false} RunKeeps(paths: seq<seq<Path>>, start: Vertex, end: Vertex, k: nat)
    requires Closed(paths) && NoNegativeSelfLoop(paths)
    requires start < |paths| && end < |paths| && start != end
    ensures Run(paths, start, end, k).Some? ==>
      WalkInv(paths, start, end, Run(paths, start, end, k).value) && Run(paths, start, end, k).value.steps == k
    decreases k
  {
    if k > 0 {
      RunKeeps(paths, start, end, k - 1);
      var prev := Run(paths, start, end, k - 1);
      if prev.Some? && prev.value.node != end {
        var c := prev.value;
        assert Run(paths, start, end, k) == Advance(paths, c);
        if Advance(paths, c).Some? {
          AdvanceKeeps(paths, start, end, c);
          assert Advance(paths, c).value.steps == c.steps + 1;
        }
      }
    } else {
      WalkStart(paths, start, end);
    }
  }

  /** A reachable state has taken fewer than `2n` iterations, and fewer
      than `n` when no node has an edge to itself. */
  lemma Bounded(paths: seq<seq<Path>>, start: Vertex, end: Vertex, c: Config)
    requires WalkInv(paths, start, end, c)
    ensures c.steps < 2 * |paths|
    ensures NoSelfLoop(paths) ==> c.steps < |paths|
  {
    assert end !in c.done;
    CardBound(c.done + {end}, |paths|);
  }

  /** What the loop needs at the top of each iteration: the state reached
      after `k` iterations has counted them, and there are fewer than `2n`. */
  lemma RunShaped(paths: seq<seq<Path>>, start: Vertex, end: Vertex, k: nat, c: Config)
    requires Closed(paths) && NoNegativeSelfLoop(paths)
    requires start < |paths| && end < |paths| && start != end
    requires Run(paths, start, end, k) == Some(c)
    ensures c.steps == k
    ensures k < 2 * |paths|
    ensures NoSelfLoop(paths) ==> k < |paths|
  {
    RunKeeps(paths, start, end, k);
    Bounded(paths, start, end, c);
  }

  /** An iteration that finds no unvisited neighbour leaves every target of
      `node` visited, within the same bounds on the number of iterations. */
  lemma RunStuck(paths: seq<seq<Path>>, start: Vertex, end: Vertex, k: nat, c: Config)
    requires Closed(paths) && NoNegativeSelfLoop(paths)
    requires start < |paths| && end < |paths| && start != end
    requires Run(paths, start, end, k) == Some(c)
    requires c.node != end && Advance(paths, c).None?
    ensures forall j :: 0 <= j < |paths[c.node]| ==> c.visited[c.node := true][paths[c.node][j].node]
    ensures k + 1 < 2 * |paths|
    ensures NoSelfLoop(paths) ==> k + 1 < |paths|
  {
    RunKeeps(paths, start, end, k);
    assert Within(paths[c.node], |c.visited|);
    var ps := Unvisited(paths[c.node], c.visited);
    assert |Targets(ps)| == 0;
    StuckVisited(paths[c.node], c.visited, c.node);
    StuckTally(paths, c.visited, start, end, c.node, c.done, c.steps);
  }

  /** When the filter keeps nothing, every target is visited. */
  lemma StuckVisited(ps: seq<Path>, visited: seq<bool>, u: Vertex)
    requires Within(ps, |visited|) && u < |visited|
    requires Unvisited(ps, visited) == []
    ensures forall j :: 0 <= j < |ps| ==> visited[u := true][ps[j].node]
  {
    UnvisitedMembers(ps, visited);
    forall j | 0 <= j < |ps| ensures visited[u := true][ps[j].node] {
      assert ps[j] in ps;
    }
  }

  /** One more iteration than the bookkeeping has counted still stays below
      `2n`, and below `n` when no node has an edge to itself. */
  lemma StuckTally(paths: seq<seq<Path>>, visited: seq<bool>, start: Vertex, end: Vertex,
                   node: Vertex, done: set<Vertex>, steps: nat)
    requires Tally(paths, visited, start, end, node, done, steps) && node != end
    ensures steps + 1 < 2 * |paths|
    ensures NoSelfLoop(paths) ==> steps + 1 < |paths|
  {
    if visited[node] {
      CardBound(done + {end}, |paths|);
    } else {
      assert node !in done && end !in done;
      CardBound(done + {node, end}, |paths|);
    }
  }

  /** On reaching `end`, the `visitedFrom` links fall in rank along the
      visit order, so following them from any node ends. */
  lemma RunRanked(paths: seq<seq<Path>>, start: Vertex, end: Vertex, k: nat, c: Config)
    requires Closed(paths) && NoNegativeSelfLoop(paths)
    requires start < |paths| && end < |paths| && start != end
    requires Run(paths, start, end, k) == Some(c)
    ensures Ranked(c.t.from, Ranks(c.visited, c.stamp, k))
  {
    RunKeeps(paths, start, end, k);
    SearchRanked(paths, c.t, c.visited, c.stamp, start, k);
  }

  /** On reaching `end`, a duplicate-free `visitedFrom` chain to `end` from a
      node without a link is a route from `start` whose nodes other than
      `end` are visited, while `end` is not. */
  lemma RunRoute(paths: seq<seq<Path>>, start: Vertex, end: Vertex, k: nat, c: Config, r: seq<Vertex>)
    requires Closed(paths) && NoNegativeSelfLoop(paths)
    requires start < |paths| && end < |paths| && start != end
    requires Run(paths, start, end, k) == Some(c) && c.node == end
    requires |r| > 0 && r[|r| - 1] == end && (forall i :: 0 <= i < |r| ==> r[i] < |paths|)
    requires c.t.from[r[0]] == None
    requires forall i :: 0 <= i < |r| - 1 ==> c.t.from[r[i + 1]] == Some(r[i])
    requires forall i, j :: 0 <= i < j < |r| ==> r[i] != r[j]
    ensures Route(paths, c.t.dist, c.t.from, start, end, r)
    ensures forall i :: 0 <= i < |r| - 1 ==> c.visited[r[i]]
    ensures !c.visited[end]
  {
    RunKeeps(paths, start, end, k);
    ChainIsRoute(paths, c.t, c.visited, c.stamp, start, k, end, r);
  }
}

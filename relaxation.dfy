/**
 The relaxation step of `calcNeighboursTentativeDistance`, stated on values:
 the tentative `distance` and `visitedFrom` of every node, and what relaxing
 a list of edges out of one node does to them.
 */
module Relaxation {
  import opened Paths
  import opened EdgeLists

  /** The `distance` and `visitedFrom` fields of every node, by index. */
  datatype Tentative = Tentative(dist: seq<Dist>, from: seq<Option<Vertex>>)

  predicate Sized(t: Tentative, n: nat)
  {
    |t.dist| == n && |t.from| == n
  }

  /** Every entry of `ps` points below `n`. */
  predicate Within(ps: seq<Path>, n: nat)
  {
    forall k :: 0 <= k < |ps| ==> ps[k].node < n
  }

  /** No entry of `ps` leads back to `u` with a negative cost. */
  predicate SelfSafe(ps: seq<Path>, u: Vertex)
  {
    forall k :: 0 <= k < |ps| && ps[k].node == u ==> ps[k].cost >= 0
  }

  /** `paths.filter(path => !path.node.visited)`, keeping the order of `ps`. */
  function Unvisited(ps: seq<Path>, visited: seq<bool>): (r: seq<Path>)
    requires Within(ps, |visited|)
    ensures Within(r, |visited|)
  {
    if ps == [] then []
    else
      assert Within(ps[1..], |visited|) by {
        assert forall k :: 0 <= k < |ps| - 1 ==> ps[1..][k] == ps[k + 1];
      }
      if visited[ps[0].node] then Unvisited(ps[1..], visited)
      else [ps[0]] + Unvisited(ps[1..], visited)
  }

  /** The filter keeps exactly the entries whose target is not visited. */
  lemma {:induction false} UnvisitedMembers(ps: seq<Path>, visited: seq<bool>)
    requires Within(ps, |visited|)
    ensures forall p :: p in Unvisited(ps, visited) <==> p in ps && !visited[p.node]
  {
    if ps != [] {
      assert Within(ps[1..], |visited|) by {
        assert forall k :: 0 <= k < |ps| - 1 ==> ps[1..][k] == ps[k + 1];
      }
      UnvisitedMembers(ps[1..], visited);
      assert forall p :: p in ps <==> p == ps[0] || p in ps[1..];
    }
  }

  /** `paths.map(path => path.node)`. */
  function Targets(ps: seq<Path>): (r: seq<Vertex>)
    ensures |r| == |ps|
  {
    if ps == [] then [] else Targets(ps[..|ps| - 1]) + [ps[|ps| - 1].node]
  }

  /** The `k`th target is the target of the `k`th entry. */
  lemma {:induction false} TargetsAt(ps: seq<Path>)
    ensures forall k :: 0 <= k < |ps| ==> Targets(ps)[k] == ps[k].node
  {
    if ps != [] {
      TargetsAt(ps[..|ps| - 1]);
    }
  }

  /** The smaller of two distances. */
  function MinDist(a: Dist, b: Dist): Dist
  {
    if Below(b, a) then b else a
  }

  /** One pass of the loop body: the entry `p` out of `u` lowers `p.node`'s
      distance, and points it back at `u`, when `u`'s distance plus the cost is
      strictly smaller. `u`'s distance is read afresh, as the source does. */
  function RelaxStep(t: Tentative, u: Vertex, p: Path): (r: Tentative)
    requires Sized(t, |t.dist|) && u < |t.dist| && p.node < |t.dist|
    ensures Sized(r, |t.dist|)
  {
    var candidate := Plus(t.dist[u], p.cost);
    if Below(candidate, t.dist[p.node]) then
      Tentative(t.dist[p.node := candidate], t.from[p.node := Some(u)])
    else t
  }

  /** The loop over `ps` in order. */
  function RelaxAll(t: Tentative, u: Vertex, ps: seq<Path>): (r: Tentative)
    requires Sized(t, |t.dist|) && u < |t.dist| && Within(ps, |t.dist|)
    ensures Sized(r, |t.dist|)
    decreases |ps|
  {
    if ps == [] then t
    else RelaxStep(RelaxAll(t, u, ps[..|ps| - 1]), u, ps[|ps| - 1])
  }

  /** Relaxation never raises a distance; it sets `visitedFrom` to `u` exactly
      when it strictly lowers a distance, leaves `visitedFrom` alone when it
      leaves the distance alone, and touches no node that `ps` does not
      point at. */
  lemma {:induction false} RelaxMonotone(t: Tentative, u: Vertex, ps: seq<Path>)
    requires Sized(t, |t.dist|) && u < |t.dist| && Within(ps, |t.dist|)
    ensures forall v :: 0 <= v < |t.dist| ==> AtMost(RelaxAll(t, u, ps).dist[v], t.dist[v])
    ensures forall v :: 0 <= v < |t.dist| && Below(RelaxAll(t, u, ps).dist[v], t.dist[v]) ==>
      RelaxAll(t, u, ps).from[v] == Some(u)
    ensures forall v :: 0 <= v < |t.dist| && RelaxAll(t, u, ps).dist[v] == t.dist[v] ==>
      RelaxAll(t, u, ps).from[v] == t.from[v]
    ensures forall v :: 0 <= v < |t.dist| && (forall k :: 0 <= k < |ps| ==> ps[k].node != v) ==>
      RelaxAll(t, u, ps).dist[v] == t.dist[v] && RelaxAll(t, u, ps).from[v] == t.from[v]
    decreases |ps|
  {
    if ps != [] {
      var init := ps[..|ps| - 1];
      assert forall k :: 0 <= k < |init| ==> init[k] == ps[k];
      RelaxMonotone(t, u, init);
    }
  }

  /** When no entry leads back to `u` with a negative cost, `u` itself is left
      alone, every distance that changes becomes `u`'s distance plus the cost
      of an entry to that node, and every target ends at most that far. */
  lemma RelaxFromStable(t: Tentative, u: Vertex, ps: seq<Path>)
    requires Sized(t, |t.dist|) && u < |t.dist| && Within(ps, |t.dist|) && SelfSafe(ps, u)
    ensures RelaxAll(t, u, ps).dist[u] == t.dist[u] && RelaxAll(t, u, ps).from[u] == t.from[u]
    ensures forall v :: 0 <= v < |t.dist| && RelaxAll(t, u, ps).dist[v] != t.dist[v] ==>
      exists k :: 0 <= k < |ps| && ps[k].node == v && RelaxAll(t, u, ps).dist[v] == Plus(t.dist[u], ps[k].cost)
    ensures forall k :: 0 <= k < |ps| ==> AtMost(RelaxAll(t, u, ps).dist[ps[k].node], Plus(t.dist[u], ps[k].cost))
  {
    RelaxKeepsSource(t, u, ps);
    RelaxChanges(t, u, ps);
    RelaxBound(t, u, ps);
  }

  /** Relaxing from `u` leaves `u` alone when no entry leads back to it at a
      negative cost. */
  lemma {:induction false} RelaxKeepsSource(t: Tentative, u: Vertex, ps: seq<Path>)
    requires Sized(t, |t.dist|) && u < |t.dist| && Within(ps, |t.dist|) && SelfSafe(ps, u)
    ensures RelaxAll(t, u, ps).dist[u] == t.dist[u] && RelaxAll(t, u, ps).from[u] == t.from[u]
    decreases |ps|
  {
    if ps != [] {
      var init := ps[..|ps| - 1];
      assert forall k :: 0 <= k < |init| ==> init[k] == ps[k];
      RelaxKeepsSource(t, u, init);
    }
  }

  /** Every distance that relaxing from `u` changes becomes `u`'s distance
      plus the cost of an entry to that node. */
  lemma {:induction false} RelaxChanges(t: Tentative, u: Vertex, ps: seq<Path>)
    requires Sized(t, |t.dist|) && u < |t.dist| && Within(ps, |t.dist|) && SelfSafe(ps, u)
    ensures forall v :: 0 <= v < |t.dist| && RelaxAll(t, u, ps).dist[v] != t.dist[v] ==>
      exists k :: 0 <= k < |ps| && ps[k].node == v && RelaxAll(t, u, ps).dist[v] == Plus(t.dist[u], ps[k].cost)
    decreases |ps|
  {
    if ps != [] {
      var init := ps[..|ps| - 1];
      var p := ps[|ps| - 1];
      assert forall k :: 0 <= k < |init| ==> init[k] == ps[k];
      RelaxChanges(t, u, init);
      RelaxKeepsSource(t, u, init);
      var m := RelaxAll(t, u, init);
      var r := RelaxAll(t, u, ps);
      assert r == RelaxStep(m, u, p);
      forall v | 0 <= v < |t.dist| && r.dist[v] != t.dist[v]
        ensures exists k :: 0 <= k < |ps| && ps[k].node == v && r.dist[v] == Plus(t.dist[u], ps[k].cost)
      {
        if v == p.node && r.dist[v] != m.dist[v] {
          assert ps[|ps| - 1].node == v;
        } else {
          var k :| 0 <= k < |init| && init[k].node == v && m.dist[v] == Plus(t.dist[u], init[k].cost);
          assert ps[k] == init[k];
        }
      }
    }
  }

  /** After relaxing from `u`, every target is at most `u`'s distance plus
      the cost of its entry. */
  lemma {:induction false} RelaxBound(t: Tentative, u: Vertex, ps: seq<Path>)
    requires Sized(t, |t.dist|) && u < |t.dist| && Within(ps, |t.dist|) && SelfSafe(ps, u)
    ensures forall k :: 0 <= k < |ps| ==> AtMost(RelaxAll(t, u, ps).dist[ps[k].node], Plus(t.dist[u], ps[k].cost))
    decreases |ps|
  {
    if ps != [] {
      var init := ps[..|ps| - 1];
      var p := ps[|ps| - 1];
      assert forall k :: 0 <= k < |init| ==> init[k] == ps[k];
      RelaxBound(t, u, init);
      RelaxKeepsSource(t, u, init);
      RelaxMonotone(RelaxAll(t, u, init), u, [p]);
      assert RelaxAll(t, u, ps) == RelaxStep(RelaxAll(t, u, init), u, p);
    }
  }

  /** With at most one entry per target, each target ends at the smaller of its
      old distance and `u`'s distance plus the entry's cost. */
  lemma {:induction false} RelaxIsMin(t: Tentative, u: Vertex, ps: seq<Path>)
    requires Sized(t, |t.dist|) && u < |t.dist| && Within(ps, |t.dist|) && SelfSafe(ps, u)
    requires UniqueTargets(ps)
    ensures forall k :: 0 <= k < |ps| ==>
      RelaxAll(t, u, ps).dist[ps[k].node] == MinDist(t.dist[ps[k].node], Plus(t.dist[u], ps[k].cost))
    decreases |ps|
  {
    if ps != [] {
      var init := ps[..|ps| - 1];
      var p := ps[|ps| - 1];
      assert forall k :: 0 <= k < |init| ==> init[k] == ps[k];
      RelaxIsMin(t, u, init);
      RelaxFromStable(t, u, init);
      RelaxMonotone(t, u, init);
    }
  }

  /** Relaxing the unvisited entries of `ps` leaves every visited node alone,
      and leaves `u` alone when no entry leads back to it at a negative cost. */
  lemma RelaxUnvisited(t: Tentative, u: Vertex, ps: seq<Path>, visited: seq<bool>)
    requires Sized(t, |visited|) && u < |visited| && Within(ps, |visited|)
    ensures forall v :: 0 <= v < |visited| && visited[v] ==>
      RelaxAll(t, u, Unvisited(ps, visited)).dist[v] == t.dist[v] &&
      RelaxAll(t, u, Unvisited(ps, visited)).from[v] == t.from[v]
    ensures SelfSafe(ps, u) ==>
      RelaxAll(t, u, Unvisited(ps, visited)).dist[u] == t.dist[u] &&
      RelaxAll(t, u, Unvisited(ps, visited)).from[u] == t.from[u]
  {
    var qs := Unvisited(ps, visited);
    UnvisitedMembers(ps, visited);
    RelaxMonotone(t, u, qs);
    forall v | 0 <= v < |visited| && visited[v]
      ensures forall k :: 0 <= k < |qs| ==> qs[k].node != v
    {
      forall k | 0 <= k < |qs| ensures qs[k].node != v {
        assert qs[k] in qs;
      }
    }
    if SelfSafe(ps, u) {
      assert SelfSafe(qs, u) by {
        forall k | 0 <= k < |qs| && qs[k].node == u ensures qs[k].cost >= 0 {
          assert qs[k] in ps;
        }
      }
      RelaxFromStable(t, u, qs);
    }
  }
}

/**
 The edge list of one node and the replacement rule of `addOrientedPath`: an
 earlier entry to the same target is dropped and the new entry goes last.
 */
module EdgeLists {
  import opened Paths

  /** Some entry of `ps` goes to `node`. */
  predicate HasTarget(ps: seq<Path>, node: Vertex)
  {
    exists k :: 0 <= k < |ps| && ps[k].node == node
  }

  /** `paths.findIndex(n => n.node === node)`: the first index of an entry to
      `node`, or -1 when there is none. */
  function FindIndex(ps: seq<Path>, node: Vertex): (i: int)
    ensures -1 <= i < |ps|
    ensures i == -1 <==> !HasTarget(ps, node)
    ensures 0 <= i ==> ps[i].node == node && forall k :: 0 <= k < i ==> ps[k].node != node
  {
    if ps == [] then -1
    else if ps[0].node == node then 0
    else
      var j := FindIndex(ps[1..], node);
      assert forall k :: 1 <= k < |ps| ==> ps[k] == ps[1..][k - 1];
      if j == -1 then -1 else j + 1
  }

  /** `ps` without its first entry to `node` (unchanged when there is none). */
  function RemoveFirst(ps: seq<Path>, node: Vertex): (r: seq<Path>)
    ensures |r| == if HasTarget(ps, node) then |ps| - 1 else |ps|
    ensures !HasTarget(ps, node) ==> r == ps
  {
    if ps == [] then []
    else if ps[0].node == node then ps[1..]
    else
      assert HasTarget(ps, node) <==> HasTarget(ps[1..], node) by {
        assert forall k :: 1 <= k < |ps| ==> ps[k] == ps[1..][k - 1];
      }
      [ps[0]] + RemoveFirst(ps[1..], node)
  }

  /** The edge list after `addOrientedPath(node, cost)`. */
  function AddedPath(ps: seq<Path>, node: Vertex, cost: int): (r: seq<Path>)
    ensures |r| == if HasTarget(ps, node) then |ps| else |ps| + 1
    ensures r[|r| - 1] == Path(cost, node)
  {
    RemoveFirst(ps, node) + [Path(cost, node)]
  }

  /** Dropping an entry keeps every remaining target below `n`. */
  lemma {:induction false} RemoveFirstWithin(ps: seq<Path>, node: Vertex, n: nat)
    requires forall k :: 0 <= k < |ps| ==> ps[k].node < n
    ensures forall k :: 0 <= k < |RemoveFirst(ps, node)| ==> RemoveFirst(ps, node)[k].node < n
  {
    if ps != [] && ps[0].node != node {
      assert forall k :: 0 <= k < |ps| - 1 ==> ps[1..][k] == ps[k + 1];
      RemoveFirstWithin(ps[1..], node, n);
    }
  }

  /** The entries of `ps` that do not go to `node`, in order. */
  function Others(ps: seq<Path>, node: Vertex): (r: seq<Path>)
    ensures forall p :: p in r <==> p in ps && p.node != node
  {
    if ps == [] then []
    else if ps[0].node == node then Others(ps[1..], node)
    else [ps[0]] + Others(ps[1..], node)
  }

  /** At most one entry per target. */
  predicate UniqueTargets(ps: seq<Path>)
  {
    forall i, j :: 0 <= i < j < |ps| ==> ps[i].node != ps[j].node
  }

  /** Splicing out the index `findIndex` returns removes the first entry to
      `node`: the rest keep their positions relative to each other. */
  lemma {:induction false} SpliceRemovesFirst(ps: seq<Path>, node: Vertex)
    requires FindIndex(ps, node) != -1
    ensures ps[..FindIndex(ps, node)] + ps[FindIndex(ps, node) + 1..] == RemoveFirst(ps, node)
  {
    if ps[0].node != node {
      SpliceRemovesFirst(ps[1..], node);
      var i := FindIndex(ps[1..], node);
      assert ps[..i + 1] == [ps[0]] + ps[1..][..i];
      assert ps[i + 2..] == ps[1..][i + 1..];
    }
  }

  lemma {:induction false} OthersAppend(a: seq<Path>, b: seq<Path>, node: Vertex)
    ensures Others(a + b, node) == Others(a, node) + Others(b, node)
  {
    if a != [] {
      assert (a + b)[1..] == a[1..] + b;
      OthersAppend(a[1..], b, node);
    } else {
      assert a + b == b;
    }
  }

  lemma {:induction false} OthersRemoveFirst(ps: seq<Path>, node: Vertex)
    ensures Others(RemoveFirst(ps, node), node) == Others(ps, node)
  {
    if ps != [] && ps[0].node != node {
      OthersRemoveFirst(ps[1..], node);
      OthersAppend([ps[0]], RemoveFirst(ps[1..], node), node);
    }
  }

  /** `addOrientedPath(node, cost)` keeps every entry to another target, in
      the same relative order. */
  lemma AddedKeepsOthers(ps: seq<Path>, node: Vertex, cost: int)
    ensures Others(AddedPath(ps, node, cost), node) == Others(ps, node)
  {
    OthersAppend(RemoveFirst(ps, node), [Path(cost, node)], node);
    OthersRemoveFirst(ps, node);
  }

  /** With at most one entry per target, `Others` removes exactly what
      `RemoveFirst` removes. */
  lemma {:induction false} UniqueRemoveFirst(ps: seq<Path>, node: Vertex)
    requires UniqueTargets(ps)
    ensures RemoveFirst(ps, node) == Others(ps, node)
  {
    if ps != [] {
      assert UniqueTargets(ps[1..]) by {
        assert forall k :: 0 <= k < |ps| - 1 ==> ps[1..][k] == ps[k + 1];
      }
      if ps[0].node == node {
        assert forall p :: p in ps[1..] ==> p.node != node;
        OthersNone(ps[1..], node);
      } else {
        UniqueRemoveFirst(ps[1..], node);
      }
    }
  }

  lemma {:induction false} OthersNone(ps: seq<Path>, node: Vertex)
    requires forall p :: p in ps ==> p.node != node
    ensures Others(ps, node) == ps
  {
    if ps != [] {
      OthersNone(ps[1..], node);
    }
  }

  /** From a list with at most one entry per target, `addOrientedPath` again
      leaves one entry per target: the other entries, then the new one. */
  lemma AddedUnique(ps: seq<Path>, node: Vertex, cost: int)
    requires UniqueTargets(ps)
    ensures AddedPath(ps, node, cost) == Others(ps, node) + [Path(cost, node)]
    ensures UniqueTargets(AddedPath(ps, node, cost))
  {
    UniqueRemoveFirst(ps, node);
    var r := AddedPath(ps, node, cost);
    var o := Others(ps, node);
    forall i, j | 0 <= i < j < |r| ensures r[i].node != r[j].node {
      assert r[i] in o;
      if j < |o| {
        assert r[j] in o;
        OthersUnique(ps, node);
      }
    }
  }

  lemma {:induction false} OthersUnique(ps: seq<Path>, node: Vertex)
    requires UniqueTargets(ps)
    ensures UniqueTargets(Others(ps, node))
  {
    UniqueRemoveFirst(ps, node);
    RemoveFirstUnique(ps, node);
  }

  lemma {:induction false} RemoveFirstUnique(ps: seq<Path>, node: Vertex)
    requires UniqueTargets(ps)
    ensures UniqueTargets(RemoveFirst(ps, node))
  {
    if FindIndex(ps, node) != -1 {
      var i := FindIndex(ps, node);
      SpliceRemovesFirst(ps, node);
      var r := ps[..i] + ps[i + 1..];
      forall a, b | 0 <= a < b < |r| ensures r[a].node != r[b].node {
        var a' := if a < i then a else a + 1;
        var b' := if b < i then b else b + 1;
        assert r[a] == ps[a'] && r[b] == ps[b'];
      }
    }
  }

  /** Calling `addOrientedPath` twice with the same arguments is the same as
      calling it once. */
  lemma AddedIdempotent(ps: seq<Path>, node: Vertex, cost: int)
    requires UniqueTargets(ps)
    ensures AddedPath(AddedPath(ps, node, cost), node, cost) == AddedPath(ps, node, cost)
  {
    AddedUnique(ps, node, cost);
    AddedUnique(AddedPath(ps, node, cost), node, cost);
    AddedKeepsOthers(ps, node, cost);
  }

  /** The edge list after `addOrientedPath(node, c)` for each `c` of `costs`
      in turn. */
  function AddedAll(ps: seq<Path>, node: Vertex, costs: seq<int>): (r: seq<Path>)
    ensures costs != [] ==> |r| > 0 && r[|r| - 1] == Path(costs[|costs| - 1], node)
    decreases |costs|
  {
    if costs == [] then ps
    else AddedPath(AddedAll(ps, node, costs[..|costs| - 1]), node, costs[|costs| - 1])
  }

  /** Repeated `addOrientedPath` calls to one target leave exactly one entry for
      it, the last one, carrying the latest cost; the other entries are those
      the list started with. */
  lemma {:induction false} LatestCostWins(ps: seq<Path>, node: Vertex, costs: seq<int>)
    requires UniqueTargets(ps) && costs != []
    ensures AddedAll(ps, node, costs) == Others(ps, node) + [Path(costs[|costs| - 1], node)]
    ensures UniqueTargets(AddedAll(ps, node, costs))
    ensures forall k :: 0 <= k < |AddedAll(ps, node, costs)| - 1 ==> AddedAll(ps, node, costs)[k].node != node
    decreases |costs|
  {
    var init := costs[..|costs| - 1];
    var c := costs[|costs| - 1];
    var o := Others(ps, node);
    assert AddedAll(ps, node, costs) == AddedPath(AddedAll(ps, node, init), node, c);
    if init == [] {
      AddedUnique(ps, node, c);
    } else {
      LatestCostWins(ps, node, init);
      var before := AddedAll(ps, node, init);
      var last := Path(init[|init| - 1], node);
      AddedUnique(before, node, c);
      OthersAppend(o, [last], node);
      OthersNone(o, node);
      assert [last][1..] == [];
      assert Others(before, node) == o;
    }
    var r := AddedAll(ps, node, costs);
    assert r == o + [Path(c, node)];
    forall k | 0 <= k < |r| - 1 ensures r[k].node != node {
      assert r[k] == o[k];
      assert o[k] in o;
    }
  }
}

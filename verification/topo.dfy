/**
  The topological sort inside `backward`: a depth-first post-order walk from
  the root with a visited set. The walk over a node's operand set is modelled
  in ascending index order, and the contracts below are proved for that order.
 */
module Topo {
  import opened ValueGraph

  /** The nodes reachable from `v` through operand edges, `v` included. It
      follows the same ascending scan of operand indices as the walk. */
  ghost function Reach(g: Graph, v: nat): set<nat>
    requires v < |g|
    decreases v, 1
  {
    {v} + ReachFrom(g, v, 0)
  }

  /** The nodes reachable from the operands of `v` whose index is at least `k`. */
  ghost function ReachFrom(g: Graph, v: nat, k: nat): set<nat>
    requires v < |g| && k <= v
    decreases v, 0, v - k
  {
    if k == v then {}
    else if k in g[v].prev then Reach(g, k) + ReachFrom(g, v, k + 1)
    else ReachFrom(g, v, k + 1)
  }

  function Elems(s: seq<nat>): set<nat> {
    set x | x in s
  }

  /** No node occurs twice. */
  ghost predicate Distinct(s: seq<nat>) {
    forall p, q :: 0 <= p < q < |s| ==> s[p] != s[q]
  }

  /** Every listed node is in the arena and comes after all of its operands. */
  ghost predicate TopoOrdered(g: Graph, s: seq<nat>) {
    && (forall p :: 0 <= p < |s| ==> s[p] < |g|)
    && (forall p, c :: 0 <= p < |s| && c in g[s[p]].prev ==> c in s[..p])
  }

  lemma {:induction false} ReachBelow(g: Graph, v: nat)
    requires v < |g|
    ensures forall x :: x in Reach(g, v) ==> x <= v
    decreases v, 1
  {
    ReachFromBelow(g, v, 0);
  }

  lemma {:induction false} ReachFromBelow(g: Graph, v: nat, k: nat)
    requires v < |g| && k <= v
    ensures forall x :: x in ReachFrom(g, v, k) ==> x < v
    decreases v, 0, v - k
  {
    if k < v {
      ReachFromBelow(g, v, k + 1);
      if k in g[v].prev {
        ReachBelow(g, k);
      }
    }
  }

  lemma {:induction false} ReachFromMembers(g: Graph, v: nat, k: nat)
    requires WellFormed(g) && v < |g| && k <= v
    ensures forall x :: x in ReachFrom(g, v, k) <==>
              exists c :: c in g[v].prev && k <= c && x in Reach(g, c)
    decreases v - k
  {
    if k < v {
      ReachFromMembers(g, v, k + 1);
    }
  }

  /** `Reach` is reachability: a node is reachable from `v` exactly when it is
      `v` itself or reachable from one of `v`'s operands. */
  lemma ReachStep(g: Graph, v: nat)
    requires WellFormed(g) && v < |g|
    ensures forall x :: x in Reach(g, v) <==>
              x == v || exists c :: c in g[v].prev && x in Reach(g, c)
  {
    ReachFromMembers(g, v, 0);
  }

  /** Reachability is closed under taking operands. */
  lemma {:induction false} ReachClosed(g: Graph, root: nat, v: nat, c: nat)
    requires WellFormed(g) && root < |g|
    requires v < |g| && v in Reach(g, root) && c in g[v].prev
    ensures c in Reach(g, root)
    decreases root
  {
    ReachBelow(g, root);
    ReachStep(g, root);
    if v == root {
      ReachStep(g, c);
    } else {
      var c' :| c' in g[root].prev && v in Reach(g, c');
      ReachClosed(g, c', v, c);
    }
  }

  /** Once a node is in a topologically ordered list, so is everything it reaches. */
  lemma {:induction false} TopoClosed(g: Graph, s: seq<nat>, v: nat)
    requires WellFormed(g) && TopoOrdered(g, s) && v in s
    ensures Reach(g, v) <= Elems(s)
    decreases v
  {
    var p :| 0 <= p < |s| && s[p] == v;
    ReachStep(g, v);
    forall x | x in Reach(g, v) ensures x in Elems(s) {
      if x != v {
        var c :| c in g[v].prev && x in Reach(g, c);
        assert c in s[..p];
        TopoClosed(g, s, c);
      }
    }
  }

  /** A list without repeats has as many elements as its set of elements. */
  lemma {:induction false} DistinctCount(s: seq<nat>)
    requires Distinct(s)
    ensures |Elems(s)| == |s|
  {
    if |s| > 0 {
      var t := s[..|s| - 1];
      assert s == t + [s[|s| - 1]];
      assert Elems(s) == Elems(t) + {s[|s| - 1]};
      DistinctCount(t);
    }
  }

  /** In a topologically ordered list without repeats, neither a node nor
      any of its operands occurs after it. */
  lemma LaterThanOperands(g: Graph, s: seq<nat>, i: nat)
    requires TopoOrdered(g, s) && Distinct(s) && i < |s|
    ensures Elems(s[i..]) == Elems(s[i + 1..]) + {s[i]}
    ensures s[i] !in Elems(s[i + 1..])
    ensures forall c :: c in g[s[i]].prev ==> c !in Elems(s[i + 1..])
  {
    assert s[i..] == [s[i]] + s[i + 1..];
    forall c | c in g[s[i]].prev ensures c !in Elems(s[i + 1..]) {
      assert c in s[..i];
    }
  }

  /** In a topologically ordered list without repeats, every consumer of a
      listed node that is itself listed comes after it. */
  lemma ConsumersLater(g: Graph, s: seq<nat>, i: nat)
    requires TopoOrdered(g, s) && Distinct(s) && i < |s|
    ensures forall q :: 0 <= q < |s| && s[i] in g[s[q]].prev ==> i < q
  {
    forall q | 0 <= q < |s| && s[i] in g[s[q]].prev ensures i < q {
      assert s[i] in s[..q];
    }
  }

  /** The state of the walk: the visited set and the post-order list built so far. */
  datatype Walk = Walk(visited: set<nat>, topo: seq<nat>)

  /** Nodes entered but not yet finished: the current DFS path. */
  function Stack(w: Walk): set<nat> {
    w.visited - Elems(w.topo)
  }

  ghost predicate WalkInv(g: Graph, w: Walk) {
    && TopoOrdered(g, w.topo)
    && Distinct(w.topo)
    && Elems(w.topo) <= w.visited
  }

  /** `build_topo(v)`: skip a visited node; otherwise mark it, walk its
      operands, then append it. Adds exactly the nodes reachable from `v`, each
      once, and keeps the list topologically ordered. */
  function Visit(g: Graph, v: nat, w: Walk): (r: Walk)
    requires WellFormed(g) && v < |g| && WalkInv(g, w)
    requires forall x :: x in Stack(w) ==> v < x
    ensures WalkInv(g, r)
    ensures r.visited == w.visited + Reach(g, v)
    ensures Elems(r.topo) == Elems(w.topo) + Reach(g, v)
    ensures Stack(r) == Stack(w)
    ensures w.topo <= r.topo
    ensures v !in w.visited ==> |r.topo| > 0 && r.topo[|r.topo| - 1] == v
    decreases v, 1
  {
    if v in w.visited then
      assert v !in Stack(w);
      TopoClosed(g, w.topo, v);
      w
    else
      var w0 := Walk(w.visited + {v}, w.topo);
      assert Stack(w0) == Stack(w) + {v};
      var w1 := VisitChildren(g, v, 0, w0);
      Finish(g, v, w1);
      Walk(w1.visited, w1.topo + [v])
  }

  /** Appending a node whose operands are all finished keeps the walk invariant. */
  lemma Finish(g: Graph, v: nat, w: Walk)
    requires WellFormed(g) && v < |g| && WalkInv(g, w)
    requires v in Stack(w) && ReachFrom(g, v, 0) <= Elems(w.topo)
    ensures WalkInv(g, Walk(w.visited, w.topo + [v]))
    ensures Elems(w.topo + [v]) == Elems(w.topo) + {v}
  {
    var s := w.topo + [v];
    ReachFromMembers(g, v, 0);
    forall c | c in g[v].prev ensures c in w.topo {
      assert c in Reach(g, c);
    }
    assert s[..|w.topo|] == w.topo;
    forall p | 0 <= p < |w.topo| ensures s[..p] == w.topo[..p] { }
  }

  /** The loop over `v`'s operands, from index `k` up. */
  function VisitChildren(g: Graph, v: nat, k: nat, w: Walk): (r: Walk)
    requires WellFormed(g) && v < |g| && k <= v && WalkInv(g, w)
    requires v in Stack(w)
    requires forall x :: x in Stack(w) ==> v <= x
    ensures WalkInv(g, r)
    ensures r.visited == w.visited + ReachFrom(g, v, k)
    ensures Elems(r.topo) == Elems(w.topo) + ReachFrom(g, v, k)
    ensures Stack(r) == Stack(w)
    ensures w.topo <= r.topo
    decreases v, 0, v - k
  {
    if k == v then w
    else if k in g[v].prev then VisitChildren(g, v, k + 1, Visit(g, k, w))
    else VisitChildren(g, v, k + 1, w)
  }

  /** The `topo` list of `backward`: every node reachable from the root exactly
      once and nothing else, each after all of its operands, the root last. */
  function BuildTopo(g: Graph, root: nat): (topo: seq<nat>)
    requires WellFormed(g) && root < |g|
    ensures Distinct(topo) && TopoOrdered(g, topo)
    ensures Elems(topo) == Reach(g, root) && |topo| == |Reach(g, root)|
    ensures |topo| > 0 && topo[|topo| - 1] == root
  {
    EmptyWalk(g);
    var topo := Visit(g, root, Walk({}, [])).topo;
    DistinctCount(topo);
    topo
  }

  lemma EmptyWalk(g: Graph)
    ensures WalkInv(g, Walk({}, [])) && Stack(Walk({}, [])) == {}
    ensures Elems([]) == {}
  {
  }
}

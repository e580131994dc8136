/**
  `backward`: seed the root's gradient with 1, then run every reachable node's
  rule in reverse post-order.

  Two descriptions of the result are proved. The local one: every reachable
  node other than the root ends with its starting gradient plus the
  contributions of its reachable consumers, computed from their own final
  gradients. The reference one: `Adjoint`, the chain-rule equations solved
  from the root downward, independently of any traversal order.
 */
module Backprop {
  import opened ValueGraph
  import opened Topo

  /** The gradient a node holds before propagation: 1 for the seeded root,
      whatever it already had for every other node. */
  ghost function Base(g: Graph, root: nat, x: nat): real
    requires x < |g|
  {
    if x == root then 1.0 else g[x].grad
  }

  /** The sum, over consumers `v` in `S` with index at least `lo`, of what
      `v`'s rule contributes to `x`, each read from `v`'s gradient in `g`. */
  ghost function Inflow(g: Graph, S: set<nat>, x: nat, lo: nat): real
    requires WellFormed(g)
    decreases |g| - lo
  {
    if lo >= |g| then 0.0
    else (if lo in S then Local(g, lo, x, g[lo].grad) else 0.0) + Inflow(g, S, x, lo + 1)
  }

  /** The chain rule on the graph, seeded with the starting gradients: the
      root's value is 1, and every other node's value is its starting gradient
      plus the sum of its reachable consumers' local derivatives times their
      own values. A starting gradient is thus passed on to the node's operands,
      as the `+=` of the rules does; on a fresh graph this is d root / d x
      (`FreshAdjoint`). */
  ghost function Adjoint(g: Graph, root: nat, x: nat): real
    requires WellFormed(g) && root < |g| && x < |g|
    decreases |g| - x, 1, 0
  {
    if x == root then 1.0 else g[x].grad + AdjointInflow(g, root, x, x + 1)
  }

  ghost function AdjointInflow(g: Graph, root: nat, x: nat, lo: nat): real
    requires WellFormed(g) && root < |g| && x < lo <= |g|
    decreases |g| - x, 0, |g| - lo
  {
    if lo == |g| then 0.0
    else
      (if lo in Reach(g, root) then Local(g, lo, x, Adjoint(g, root, lo)) else 0.0)
      + AdjointInflow(g, root, x, lo + 1)
  }

  /** On a fresh graph the starting gradients drop out: every node other than
      the root gets exactly the chain-rule sum over its reachable consumers,
      which is d root / d x. */
  lemma FreshAdjoint(g: Graph, root: nat)
    requires WellFormed(g) && Fresh(g) && root < |g|
    ensures forall x :: 0 <= x < |g| && x != root ==>
              Adjoint(g, root, x) == AdjointInflow(g, root, x, x + 1)
  {
  }

  /** On a fresh graph, the gradient `backward` leaves in every node other
      than the root is exactly the sum of its reachable consumers'
      contributions: nothing else is mixed in. */
  lemma FreshChainRule(g: Graph, h: Graph, root: nat)
    requires WellFormed(g) && Fresh(g) && SameShape(g, h) && root < |g|
    requires forall x :: 0 <= x < |g| ==> h[x].grad == Adjoint(g, root, x)
    ensures forall x :: 0 <= x < |g| && x != root ==> h[x].grad == Received(h, Reach(g, root), x)
  {
    AdjointSolves(g, h, root);
  }

  /** A node receives nothing from consumers that do not name it as an operand. */
  lemma {:induction false} InflowNone(g: Graph, S: set<nat>, x: nat, lo: nat)
    requires WellFormed(g)
    requires forall v :: v in S && lo <= v < |g| ==> x !in Operands(g[v].rule)
    ensures Inflow(g, S, x, lo) == 0.0
    decreases |g| - lo
  {
    if lo < |g| {
      InflowNone(g, S, x, lo + 1);
    }
  }

  /** Inflow only reads the data, rules and gradients of the consumers in `S`. */
  lemma {:induction false} InflowFrame(g: Graph, h: Graph, S: set<nat>, x: nat, lo: nat)
    requires WellFormed(g) && SameShape(g, h)
    requires forall v :: v in S && lo <= v < |g| ==> h[v].grad == g[v].grad
    ensures Inflow(h, S, x, lo) == Inflow(g, S, x, lo)
    decreases |g| - lo
  {
    if lo < |g| {
      InflowFrame(g, h, S, x, lo + 1);
      if lo in S {
        ShapeKeepsWellFormed(g, h);
        LocalSameShape(g, h, lo, x, g[lo].grad);
      }
    }
  }

  /** Adding one more consumer adds exactly its contribution. */
  lemma {:induction false} InflowInsert(g: Graph, S: set<nat>, t: nat, x: nat, lo: nat)
    requires WellFormed(g) && t !in S && lo <= t < |g|
    ensures Inflow(g, S + {t}, x, lo) == Inflow(g, S, x, lo) + Local(g, t, x, g[t].grad)
    decreases |g| - lo
  {
    if lo < t {
      InflowInsert(g, S, t, x, lo + 1);
    } else {
      InflowFrame(g, g, S + {t}, x, lo + 1);
      assert Inflow(g, S + {t}, x, lo + 1) == Inflow(g, S, x, lo + 1) by {
        InflowSame(g, S + {t}, S, x, lo + 1);
      }
    }
  }

  /** Two consumer sets that agree from `lo` upward give the same inflow. */
  lemma {:induction false} InflowSame(g: Graph, S: set<nat>, T: set<nat>, x: nat, lo: nat)
    requires WellFormed(g)
    requires forall v :: lo <= v < |g| ==> (v in S <==> v in T)
    ensures Inflow(g, S, x, lo) == Inflow(g, T, x, lo)
    decreases |g| - lo
  {
    if lo < |g| {
      InflowSame(g, S, T, x, lo + 1);
    }
  }

  /** When the reachable consumers' gradients already agree with their
      adjoints, the two inflow sums agree. */
  lemma {:induction false} InflowAdjoint(g: Graph, h: Graph, root: nat, x: nat, lo: nat)
    requires WellFormed(g) && SameShape(g, h) && root < |g| && x < lo <= |g|
    requires forall v :: lo <= v < |g| ==> h[v].grad == Adjoint(g, root, v)
    ensures Inflow(h, Reach(g, root), x, lo) == AdjointInflow(g, root, x, lo)
    decreases |g| - lo
  {
    if lo < |g| {
      InflowAdjoint(g, h, root, x, lo + 1);
      ShapeKeepsWellFormed(g, h);
      LocalSameShape(g, h, lo, x, h[lo].grad);
      assert Inflow(h, Reach(g, root), x, lo)
          == (if lo in Reach(g, root) then Local(h, lo, x, h[lo].grad) else 0.0)
             + Inflow(h, Reach(g, root), x, lo + 1);
    }
  }

  /** Any gradient assignment that solves the local chain-rule equations is
      the adjoint. */
  lemma {:induction false} SolvesAdjoint(g: Graph, h: Graph, root: nat, x: nat)
    requires WellFormed(g) && SameShape(g, h) && root < |g| && x < |g|
    requires forall y :: 0 <= y < |g| ==>
               h[y].grad == Base(g, root, y) + Inflow(h, Reach(g, root), y, y + 1)
    requires h[root].grad == 1.0
    ensures h[x].grad == Adjoint(g, root, x)
    decreases |g| - x
  {
    if x != root {
      forall v | x < v < |g| ensures h[v].grad == Adjoint(g, root, v) {
        SolvesAdjoint(g, h, root, v);
      }
      InflowAdjoint(g, h, root, x, x + 1);
    }
  }

  /** What `x` has received from the consumers in `S`. */
  ghost function Received(g: Graph, S: set<nat>, x: nat): real
    requires WellFormed(g)
  {
    Inflow(g, S, x, x + 1)
  }

  /** Conversely, the adjoints solve the local chain-rule equations: every node
      other than the root holds its starting gradient plus what its reachable
      consumers' rules give it, read from their adjoints. */
  lemma AdjointSolves(g: Graph, h: Graph, root: nat)
    requires WellFormed(g) && SameShape(g, h) && root < |g|
    requires forall x :: 0 <= x < |g| ==> h[x].grad == Adjoint(g, root, x)
    ensures forall x :: 0 <= x < |g| && x != root ==>
              h[x].grad == g[x].grad + Received(h, Reach(g, root), x)
  {
    ShapeKeepsWellFormed(g, h);
    forall x | 0 <= x < |g| && x != root
      ensures h[x].grad == g[x].grad + Received(h, Reach(g, root), x)
    {
      InflowAdjoint(g, h, root, x, x + 1);
    }
  }


  /** `h` is `g` after the seed and after running exactly the rules of `S`:
      each gradient is its base plus what it received from `S`. */
  ghost predicate Accumulated(g: Graph, h: Graph, root: nat, S: set<nat>)
    requires WellFormed(g)
  {
    && SameShape(g, h)
    && forall x :: 0 <= x < |g| ==> h[x].grad == Base(g, root, x) + Received(h, S, x)
  }

  /** A rule contributes nothing to a node it does not name. */
  lemma LocalOutside(g: Graph, v: nat, x: nat, gv: real)
    requires WellFormed(g) && v < |g| && x !in Operands(g[v].rule)
    ensures Local(g, v, x, gv) == 0.0
  {
  }

  /** Local contributions read only data and rules, which gradients never touch. */
  lemma LocalSameShape(g: Graph, h: Graph, v: nat, x: nat, gv: real)
    requires WellFormed(g) && WellFormed(h) && SameShape(g, h) && v < |g|
    ensures Local(h, v, x, gv) == Local(g, v, x, gv)
  {
    assert h[v].rule == g[v].rule;
    match g[v].rule
    case Noop =>
    case AddBack(a, b) =>
    case MulBack(a, b) =>
      assert h[a].data == g[a].data && h[b].data == g[b].data;
  }

  lemma ShapeKeepsWellFormed(g: Graph, h: Graph)
    requires WellFormed(g) && SameShape(g, h)
    ensures WellFormed(h)
  {
  }

  /** Running `t`'s rule changes the gradient of no node outside its operands. */
  lemma RunRuleFrame(h: Graph, t: nat, S: set<nat>)
    requires WellFormed(h) && t < |h|
    requires forall c :: c in h[t].prev ==> c !in S
    ensures forall v :: v in S && 0 <= v < |h| ==> RunRule(h, t)[v].grad == h[v].grad
    ensures RunRule(h, t)[t].grad == h[t].grad
  {
    var h' := RunRule(h, t);
    forall v | v in S && 0 <= v < |h| ensures h'[v].grad == h[v].grad {
      LocalOutside(h, t, v, h[t].grad);
    }
    LocalOutside(h, t, t, h[t].grad);
  }

  /** One node's share of `StepAccumulates`. */
  lemma StepAccumulatesAt(g: Graph, root: nat, h: Graph, h': Graph, S: set<nat>, t: nat, x: nat)
    requires WellFormed(g) && t < |g| && t !in S && x < |g|
    requires SameShape(g, h) && SameShape(h, h') && WellFormed(h)
    requires h[x].grad == Base(g, root, x) + Received(h, S, x)
    requires h'[x].grad == h[x].grad + Local(h, t, x, h[t].grad)
    requires h'[t].grad == h[t].grad
    requires forall v :: v in S && 0 <= v < |h| ==> h'[v].grad == h[v].grad
    ensures h'[x].grad == Base(g, root, x) + Received(h', S + {t}, x)
  {
    InflowFrame(h, h', S, x, x + 1);
    ShapeKeepsWellFormed(h, h');
    LocalSameShape(h, h', t, x, h[t].grad);
    if t > x {
      InflowInsert(h', S, t, x, x + 1);
    } else {
      LocalOutside(h, t, x, h[t].grad);
      InflowSame(h', S + {t}, S, x, x + 1);
    }
  }

  /** Running the rule of a node none of whose operands has run yet adds that
      node to the accumulated set. */
  lemma StepAccumulates(g: Graph, root: nat, h: Graph, S: set<nat>, t: nat)
    requires WellFormed(g) && t < |g| && t !in S
    requires Accumulated(g, h, root, S)
    requires forall c :: c in g[t].prev ==> c !in S
    ensures Accumulated(g, RunRule(h, t), root, S + {t})
  {
    ShapeKeepsWellFormed(g, h);
    var h' := RunRule(h, t);
    RunRuleFrame(h, t, S);
    forall x | 0 <= x < |g|
      ensures h'[x].grad == Base(g, root, x) + Received(h', S + {t}, x)
    {
      StepAccumulatesAt(g, root, h, h', S, t, x);
    }
  }

  /** Once every reachable rule has run, the root holds 1, unreachable nodes
      hold what they had, and every gradient is the adjoint. */
  lemma AllAccumulated(g: Graph, root: nat, h: Graph)
    requires WellFormed(g) && root < |g|
    requires Accumulated(g, h, root, Reach(g, root))
    ensures SameShape(g, h)
    ensures h[root].grad == 1.0
    ensures forall x :: 0 <= x < |g| && x !in Reach(g, root) ==> h[x].grad == g[x].grad
    ensures forall x :: 0 <= x < |g| && x != root ==>
              h[x].grad == g[x].grad + Received(h, Reach(g, root), x)
    ensures forall x :: 0 <= x < |g| ==> h[x].grad == Adjoint(g, root, x)
  {
    var R := Reach(g, root);
    ReachBelow(g, root);
    forall x | 0 <= x < |g| && (x == root || x !in R)
      ensures Received(h, R, x) == 0.0
    {
      forall v | v in R && x + 1 <= v < |g| ensures x !in Operands(h[v].rule) {
        if x in Operands(h[v].rule) {
          ReachClosed(g, root, v, x);
        }
      }
      InflowNone(h, R, x, x + 1);
    }
    forall x | 0 <= x < |g| ensures h[x].grad == Adjoint(g, root, x) {
      SolvesAdjoint(g, h, root, x);
    }
  }

  /** Right after the seed nothing has been received yet. */
  lemma SeedAccumulated(g: Graph, root: nat)
    requires WellFormed(g) && root < |g|
    ensures Accumulated(g, g[root := g[root].(grad := 1.0)], root, {})
  {
    var h := g[root := g[root].(grad := 1.0)];
    ShapeKeepsWellFormed(g, h);
    forall x | 0 <= x < |g| ensures Received(h, {}, x) == 0.0 {
      InflowNone(h, {}, x, x + 1);
    }
  }

  /** The loop of `Value::backward`: seed the root with 1, then run the rules
      of `topo` from its last entry to its first. When `topo` lists every
      node after its operands, each rule runs before any of its operands'
      rules, and every node ends up with its base plus everything `topo`'s
      rules give it. */
  method Propagate(g: Graph, root: nat, topo: seq<nat>) returns (r: Graph)
    requires WellFormed(g) && root < |g|
    requires Distinct(topo) && TopoOrdered(g, topo)
    ensures Accumulated(g, r, root, Elems(topo))
  {
    r := g[root := g[root].(grad := 1.0)];
    SeedAccumulated(g, root);
    var i := |topo|;
    ghost var done: set<nat> := {};
    assert topo[i..] == [];
    while i > 0
      invariant 0 <= i <= |topo|
      invariant done == Elems(topo[i..])
      invariant Accumulated(g, r, root, done)
      // the next node's gradient is final: all of its listed consumers have run
      invariant 0 < i ==> forall q :: 0 <= q < |topo| && topo[i - 1] in g[topo[q]].prev ==> topo[q] in done
    {
      i := i - 1;
      var t := topo[i];
      LaterThanOperands(g, topo, i);
      StepAccumulates(g, root, r, done, t);
      r := RunRule(r, t);
      done := done + {t};
      if 0 < i {
        ConsumersLater(g, topo, i - 1);
      }
    }
    assert topo[0..] == topo;
  }

  /** `Value::backward` on the root: builds the topological list, seeds the
      root with 1 and runs the rules from the root toward the leaves. */
  method Backward(g: Graph, root: nat) returns (r: Graph)
    requires WellFormed(g) && root < |g|
    ensures SameShape(g, r)
    ensures r[root].grad == 1.0
    ensures forall x :: 0 <= x < |g| && x !in Reach(g, root) ==> r[x].grad == g[x].grad
    ensures forall x :: 0 <= x < |g| ==> r[x].grad == Adjoint(g, root, x)
  {
    var topo := BuildTopo(g, root);
    r := Propagate(g, root, topo);
    AllAccumulated(g, root, r);
  }
}

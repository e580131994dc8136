/**
  The `test_grad` scenario and a shared-operand (diamond) graph, on fresh nodes.
 */
module Scenario {
  import opened ValueGraph
  import opened Topo
  import opened Backprop

  /** The seven nodes of `test_grad`, as the constructors leave them:
      a = 1, b = 2, c = 3, d = 4 at indices 0..3, e = a + b at 4,
      f = c * d at 5 and g = e + f at 6, every gradient zero. */
  const TestNodes: Graph := [
    Node(1.0, 0.0, {}, "", Noop),
    Node(2.0, 0.0, {}, "", Noop),
    Node(3.0, 0.0, {}, "", Noop),
    Node(4.0, 0.0, {}, "", Noop),
    Node(3.0, 0.0, {0, 1}, "+", AddBack(0, 1)),
    Node(12.0, 0.0, {2, 3}, "*", MulBack(2, 3)),
    Node(15.0, 0.0, {4, 5}, "+", AddBack(4, 5))
  ]

  function Leaves(): Graph {
    NewLeaf(NewLeaf(NewLeaf(NewLeaf([], 1.0), 2.0), 3.0), 4.0)
  }

  lemma BuiltLeaves()
    ensures Leaves() == TestNodes[..4] && WellFormed(Leaves())
  {
  }

  lemma BuiltSum()
    ensures Add(TestNodes[..4], 0, 1) == TestNodes[..5]
  {
  }

  lemma BuiltProduct()
    ensures Multiply(TestNodes[..5], 2, 3) == TestNodes[..6]
  {
  }

  lemma BuiltOutput()
    ensures Add(TestNodes[..6], 4, 5) == TestNodes
  {
  }

  /** Building the graph with the leaf constructor, `add` and `multiply`
      yields exactly `TestNodes`, a well-formed graph with zero gradients. */
  lemma TestGraphBuilt()
    ensures Add(Multiply(Add(Leaves(), 0, 1), 2, 3), 4, 5) == TestNodes
    ensures WellFormed(TestNodes) && Fresh(TestNodes)
  {
    BuiltLeaves();
    BuiltSum();
    BuiltProduct();
    BuiltOutput();
  }

  lemma ReachTestLeaves()
    ensures forall k :: 0 <= k < 4 ==> Reach(TestNodes, k) == {k}
  {
  }

  lemma ReachTestSum()
    ensures Reach(TestNodes, 4) == {0, 1, 4}
  {
    ReachTestLeaves();
  }

  lemma ReachTestProduct()
    ensures Reach(TestNodes, 5) == {2, 3, 5}
  {
    ReachTestLeaves();
  }

  /** The whole test graph is reachable from its output. */
  lemma TestGraphReach()
    ensures Reach(TestNodes, 6) == {0, 1, 2, 3, 4, 5, 6}
  {
    ReachTestSum();
    ReachTestProduct();
  }

  lemma AdjointTestUpper()
    ensures WellFormed(TestNodes)
    ensures Adjoint(TestNodes, 6, 5) == 1.0 && Adjoint(TestNodes, 6, 4) == 1.0
  {
    TestGraphBuilt();
    AdjointTestOperand(5);
    AdjointTestOperand(4);
  }

  lemma AdjointTestOperand(x: nat)
    requires x == 4 || x == 5
    requires WellFormed(TestNodes)
    ensures Adjoint(TestNodes, 6, x) == 1.0
  {
  }

  lemma AdjointTestProduct()
    ensures WellFormed(TestNodes)
    ensures Adjoint(TestNodes, 6, 3) == 3.0 && Adjoint(TestNodes, 6, 2) == 4.0
  {
    AdjointTestUpper();
    TestGraphReach();
  }

  lemma AdjointTestSum()
    ensures WellFormed(TestNodes)
    ensures Adjoint(TestNodes, 6, 1) == 1.0 && Adjoint(TestNodes, 6, 0) == 1.0
  {
    AdjointTestUpper();
    TestGraphReach();
  }

  /** `test_grad`: build e = a + b, f = c * d, g = e + f on fresh leaves and run
      `g.backward(g)`. Then a and b hold 1, c holds d's value 4, d holds c's
      value 3, and e, f and g hold 1. */
  method TestGrad() returns (r: Graph)
    ensures |r| == 7
    ensures r[0].grad == 1.0 && r[1].grad == 1.0
    ensures r[2].grad == 4.0 && r[3].grad == 3.0
    ensures r[4].grad == 1.0 && r[5].grad == 1.0 && r[6].grad == 1.0
  {
    var g := Add(Multiply(Add(Leaves(), 0, 1), 2, 3), 4, 5);
    TestGraphBuilt();
    AdjointTestUpper();
    AdjointTestProduct();
    AdjointTestSum();
    r := Backward(g, 6);
  }

  /** A diamond: x = 3 and y = 5 at 0 and 1, p = x * y at 2, and h = p + p at 3,
      where `add` receives the same node twice and records it once. */
  const DiamondNodes: Graph := [
    Node(3.0, 0.0, {}, "", Noop),
    Node(5.0, 0.0, {}, "", Noop),
    Node(15.0, 0.0, {0, 1}, "*", MulBack(0, 1)),
    Node(30.0, 0.0, {2}, "+", AddBack(2, 2))
  ]

  lemma DiamondBuilt()
    ensures Add(Multiply(NewLeaf(NewLeaf([], 3.0), 5.0), 0, 1), 2, 2) == DiamondNodes
    ensures WellFormed(DiamondNodes) && Fresh(DiamondNodes)
  {
    var g0 := NewLeaf(NewLeaf([], 3.0), 5.0);
    assert g0 == DiamondNodes[..2];
    assert Multiply(g0, 0, 1) == DiamondNodes[..3];
  }

  lemma DiamondReach()
    ensures Reach(DiamondNodes, 3) == {0, 1, 2, 3}
  {
  }

  lemma DiamondAdjointShared()
    ensures WellFormed(DiamondNodes)
    ensures Adjoint(DiamondNodes, 3, 2) == 2.0
  {
    DiamondBuilt();
  }

  lemma DiamondAdjoint()
    ensures WellFormed(DiamondNodes)
    ensures Adjoint(DiamondNodes, 3, 2) == 2.0
    ensures Adjoint(DiamondNodes, 3, 1) == 6.0 && Adjoint(DiamondNodes, 3, 0) == 10.0
  {
    DiamondAdjointShared();
    DiamondReach();
  }

  /** Backward on the diamond: the shared product receives 2 from `p + p`
      yet runs its own rule once, so x gains 2 * 5 and y gains 2 * 3. */
  method DiamondGrad() returns (r: Graph)
    ensures |r| == 4
    ensures r[3].grad == 1.0 && r[2].grad == 2.0
    ensures r[0].grad == 10.0 && r[1].grad == 6.0
  {
    var g := Add(Multiply(NewLeaf(NewLeaf([], 3.0), 5.0), 0, 1), 2, 2);
    DiamondBuilt();
    DiamondAdjoint();
    r := Backward(g, 3);
  }

  /** y = x + x on a leaf x = 1, fresh. */
  const TwiceNodes: Graph := [
    Node(1.0, 0.0, {}, "", Noop),
    Node(2.0, 0.0, {0}, "+", AddBack(0, 0))
  ]

  lemma TwiceBuilt()
    ensures Add(NewLeaf([], 1.0), 0, 0) == TwiceNodes
    ensures WellFormed(TwiceNodes) && Fresh(TwiceNodes)
    ensures Reach(TwiceNodes, 1) == {0, 1}
  {
  }

  /** The adjoints of x in `y = x + x`, on the fresh graph and on the graph
      the first `backward` leaves behind. */
  lemma TwiceAdjoint(h: Graph)
    requires SameShape(TwiceNodes, h) && h[0].grad == 2.0
    ensures WellFormed(TwiceNodes) && WellFormed(h)
    ensures Adjoint(TwiceNodes, 1, 0) == 2.0
    ensures Reach(h, 1) == {0, 1} && Adjoint(h, 1, 0) == 4.0
  {
    TwiceBuilt();
    assert h[1].rule == AddBack(0, 0) && h[1].prev == {0} && h[0].prev == {};
    assert Reach(h, 0) == {0};
    assert AdjointInflow(h, 1, 0, 1) == Local(h, 1, 0, 1.0);
  }

  /** Calling `y.backward(y)` twice: the second call resets only the root's
      gradient, so x, which held 2 after the first call, ends at 4. Gradients
      are accumulated, never cleared, as the `+=` of the rules does. */
  method BackwardTwice() returns (r: Graph)
    ensures |r| == 2
    ensures r[1].grad == 1.0 && r[0].grad == 4.0
  {
    var g := Add(NewLeaf([], 1.0), 0, 0);
    TwiceBuilt();
    var h := Backward(g, 1);
    TwiceAdjoint(h);
    r := Backward(h, 1);
  }
}

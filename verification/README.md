# Scalar reverse-mode autodiff engine, modelled in Dafny

This project models the `Value` engine of `value.cpp`. A `Value` is one scalar
node. It holds a forward result (`data`), a gradient accumulator (`grad`), the
set of operand nodes it was computed from (`_prev`), an operator label (`_op`)
and a local backward rule (`_backward`). `add` and `multiply` build new nodes and
install their rules: both constructors give a new node the no-op closure
(value.cpp:17, value.cpp:20), and `add` / `multiply` then replace it once
(value.cpp:33, value.cpp:44). `backward` has three steps:

- it sorts the nodes reachable from the root topologically with a depth-first
  post-order walk and a visited set;
- it seeds the root's gradient with 1;
- it runs every rule in reverse post-order.

How the model is laid out:

- `graph.dfy` (module `ValueGraph`) holds the node and operator layer. Nodes
  live in an arena (`seq<Node>`) and operands are arena indices. Every operand
  index is smaller than its consumer's index (`WellFormed`), so the graph is
  acyclic by construction. The captured closure becomes the tagged `Rule`
  (`Noop | AddBack(lhs, rhs) | MulBack(lhs, rhs)`). `RunRule` is the one
  dispatch function that interprets it. It performs the closure's two `+=`
  updates one after the other, as the lambda does.
- `topo.dfy` (module `Topo`) holds `build_topo`: the mutually recursive
  `Visit` / `VisitChildren` functions, the reachability set `Reach`, and the
  lemmas that tie them together.
- `backward.dfy` (module `Backprop`) holds the `Backward` method. It builds
  the list and calls `Propagate`, which does the seed and then the loop over
  the reversed list. The result is described in two ways:
  - the local chain rule: a node's final gradient is its starting gradient
    plus what every reachable consumer's rule gives it, read from that
    consumer's final gradient;
  - the reference definition `Adjoint`: the chain-rule equations solved from
    the root downward, with no traversal order involved. Like the C++ `+=`,
    it keeps every node's starting gradient and passes it on to that node's
    operands; on a fresh graph (all gradients zero) it is d root / d node.
- `scenario.dfy` (module `Scenario`) holds the `test_grad` graph and a
  diamond-shaped graph `h = p + p` with `p = x * y`.

`data` and `grad` are Dafny `real`s. The C++ `float` only carries the numbers.

## Model

| member | source | states |
|---|---|---|
| ValueGraph.NewLeaf | value.cpp:17 | a leaf is appended with the given data, gradient 0, no operands, label "" and the no-op rule; existing nodes, well-formedness and all-zero gradients are kept |
| ValueGraph.ChildSet | value.cpp:21-23 | the operand set holds exactly the distinct members of the child list, so it is never larger than the list |
| ValueGraph.NewNode | value.cpp:19-24 | an interior node starts with gradient 0, the given label, the no-op rule, and an operand set equal to its children with duplicates removed |
| ValueGraph.Add | value.cpp:30-39 | the new node's data is the sum of the operands' data; its operands are {a, b}, its label "+", its rule the add rule; the operands and every earlier node are unchanged |
| ValueGraph.Multiply | value.cpp:41-50 | the new node's data is the product of the operands' data; its operands are {a, b}, its label "*", its rule the product rule; earlier nodes are unchanged |
| ValueGraph.RunRule | value.cpp:33-47 | running a node's rule changes no data, operand set, label or rule; every gradient grows by exactly that node's local contribution to it |
| ValueGraph.LeafRuleIsInert | value.cpp:17 | the default rule of a leaf leaves the whole graph unchanged |
| ValueGraph.AddSameOperand | value.cpp:30-36 | `add(x, x)` records x once as an operand, yet its rule raises x's gradient by twice the result's gradient |
| ValueGraph.AddRule | value.cpp:33-36 | for distinct operands, the add rule raises each by the result's gradient and leaves all other gradients and all data alone |
| ValueGraph.MulRule | value.cpp:44-47 | for distinct operands, each operand gains the other's data times the result's gradient; all other gradients and all data stay |
| Topo.ReachStep | value.cpp:58-62 | a node reachable from v is v itself or reachable from one of v's operands, and conversely |
| Topo.ReachClosed | value.cpp:60-62 | every operand of a reachable node is reachable |
| Topo.TopoClosed | value.cpp:58-64 | once a node has been appended to a topologically ordered list, everything it reaches is in the list, so skipping a visited node loses nothing |
| Topo.Visit | value.cpp:57-65 | one `build_topo` call adds to the visited set and to the list exactly the nodes reachable from v; the list stays duplicate-free and topologically ordered and only grows at its end; a newly visited node is appended last |
| Topo.VisitChildren | value.cpp:60-62 | the loop over the operands adds exactly the nodes reachable from the operands it visits and keeps the walk's invariants |
| Topo.BuildTopo | value.cpp:54-67 | the finished list contains each node reachable from the root exactly once and nothing else, lists every node after all of its operands, and ends with the root |
| Topo.ConsumersLater | value.cpp:70-72 | in the topological list every listed consumer of a node comes after it, so in reverse iteration all of a node's consumers have run before its own rule |
| Topo.LaterThanOperands | value.cpp:70-72 | in the reversed list, a node's rule runs before that of any of its operands, so a consumer finishes before its operands receive from it |
| Backprop.StepAccumulates | value.cpp:70-71 | running the rule of a node whose operands have not yet run adds exactly that node's contributions to the accumulated state |
| Backprop.AllAccumulated | value.cpp:69-72 | once every reachable rule has run, the root holds 1, unreachable nodes keep their gradient, and every gradient equals the chain-rule adjoint |
| Backprop.SolvesAdjoint | value.cpp:69-72 | any gradients that satisfy the local chain-rule equations with the root at 1 are the adjoints |
| Backprop.Propagate | value.cpp:69-72 | seeding the root with 1 and running the rules of a duplicate-free, topologically ordered list from its end leaves every node with its base gradient plus exactly what the list's rules give it; each node's listed consumers have all run before its own rule does |
| Backprop.AdjointSolves | value.cpp:69-72 | conversely, gradients equal to the adjoints give every node other than the root its old gradient plus exactly what its reachable consumers' rules contribute: gradients are only added to, except for the root's seed |
| Backprop.FreshAdjoint | value.cpp:69-72 | on a fresh graph, built by the constructors with gradient 0, the starting gradients drop out of the adjoint: every non-root node's adjoint is exactly the chain-rule sum over its reachable consumers, d root / d node |
| Backprop.FreshChainRule | value.cpp:69-72 | on a fresh graph, every node other than the root ends with exactly the sum of its reachable consumers' contributions |
| Backprop.Backward | value.cpp:52-73 | backward changes only gradients; the root ends at exactly 1; unreachable nodes keep their gradient; every node's gradient equals the chain-rule adjoint seeded with each node's starting gradient, which on a fresh graph is d root / d node |
| Scenario.TestGraphBuilt | value.cpp:79-86 | building a, b, c, d, e = a + b, f = c * d and g = e + f yields a well-formed graph with all gradients zero |
| Scenario.TestGraphReach | value.cpp:84-86 | every node of the test graph is reachable from g |
| Scenario.TestGrad | value.cpp:78-93 | after `g.backward(g)`, a and b hold 1, c holds 4, d holds 3, and e, f and g hold 1 |
| Scenario.DiamondGrad | value.cpp:52-73 | with `p = x * y` and `h = p + p`, backward gives p the gradient 2 and runs p's rule once, so x gains 10 and y gains 6 |
| Scenario.BackwardTwice | value.cpp:52-73 | calling `y->backward(y)` twice on `y = x + x` resets only the root: x holds 2 after the first call and 4 after the second, since the rules only add to gradients |

## Left out

- `create_shared` (value.cpp:26-28) copies a node whose copied closure still refers to the original. This is aliasing through `shared_ptr`, not engine logic.
- `shared_ptr` ownership and the capture of `std::function` closures are replaced by arena indices and the `Rule` variant.
- Topo.VisitChildren: walks a node's operands in ascending arena index, whereas `std::set` orders them by the address each `shared_ptr` holds. The contracts are proved for the ascending order only. None of them mentions the order among siblings.
- Backprop.Backward: takes one `root` instead of a receiver and a separate argument. The C++ seeds `this` (value.cpp:69) but starts the walk from `self` (value.cpp:67). The model assumes they are the same node, as in the only call, `g->backward(g)`.
- The console output of `test_grad` and `main` is left out.
- IEEE `float` rounding is left out: `data` and `grad` are exact reals.
- `main.cpp` is not part of this model. `sigmoid` is floating-point `exp`, and `relu` is a standalone function that the engine never calls.
- The neuron, layer and multi-layer perceptron composition is not part of this model. No code for it appears in `value.cpp`.

/**
  The scalar `Value` node of the engine and its two differentiable operators.

  Nodes live in an arena (`Graph`, a sequence) and refer to their operands by
  index. Every node is built from nodes that already exist, so an operand index
  is always smaller than the index of the node that uses it: the operand
  relation is acyclic by construction.

  The captured backward closure becomes the tagged `Rule`, and `RunRule` is the
  single dispatch function that interprets it.
 */
module ValueGraph {

  /** The local backward rule of a node: the no-op default, or the closure
      installed by `add` / `multiply` over its two operands (by index). */
  datatype Rule = Noop | AddBack(lhs: nat, rhs: nat) | MulBack(lhs: nat, rhs: nat)

  /** One scalar value: forward `data`, gradient accumulator `grad`, the set of
      operand indices `prev`, the diagnostic label `op` and the backward rule. */
  datatype Node = Node(data: real, grad: real, prev: set<nat>, op: string, rule: Rule)

  type Graph = seq<Node>

  /** The operand indices a rule writes to. */
  function Operands(r: Rule): set<nat> {
    match r
    case Noop => {}
    case AddBack(a, b) => {a, b}
    case MulBack(a, b) => {a, b}
  }

  /** Operands come strictly before their consumer, and a rule only writes to
      nodes recorded as operands. */
  ghost predicate WellFormed(g: Graph) {
    && (forall i, c :: 0 <= i < |g| && c in g[i].prev ==> c < i)
    && (forall i :: 0 <= i < |g| ==> Operands(g[i].rule) <= g[i].prev)
  }

  /** Every gradient is still zero: the state of a graph nobody has run backward on. */
  ghost predicate Fresh(g: Graph) {
    forall i :: 0 <= i < |g| ==> g[i].grad == 0.0
  }

  /** `h` differs from `g` at most in gradients. */
  ghost predicate SameShape(g: Graph, h: Graph) {
    && |g| == |h|
    && forall i :: 0 <= i < |g| ==>
         && h[i].data == g[i].data
         && h[i].prev == g[i].prev
         && h[i].op == g[i].op
         && h[i].rule == g[i].rule
  }

  /** The distinct elements of a child list, as `_prev.insert` collects them. */
  function ChildSet(children: seq<nat>): (s: set<nat>)
    ensures forall c :: c in s <==> c in children
    ensures |s| <= |children|
  {
    if |children| == 0 then {}
    else ChildSet(children[..|children| - 1]) + {children[|children| - 1]}
  }

  /** The leaf constructor: appends a node with the given data, zero gradient,
      no operands, an empty label and the no-op rule. */
  function NewLeaf(g: Graph, data: real): (r: Graph)
    ensures |r| == |g| + 1 && r[..|g|] == g
    ensures r[|g|].data == data && r[|g|].grad == 0.0
    ensures r[|g|].prev == {} && r[|g|].op == "" && r[|g|].rule == Noop
    ensures WellFormed(g) ==> WellFormed(r)
    ensures Fresh(g) ==> Fresh(r)
  {
    g + [Node(data, 0.0, {}, "", Noop)]
  }

  /** The interior constructor: appends a node whose operand set holds exactly
      the given children, each once, with zero gradient and the no-op rule. */
  function NewNode(g: Graph, data: real, children: seq<nat>, op: string): (r: Graph)
    requires forall k :: 0 <= k < |children| ==> children[k] < |g|
    ensures |r| == |g| + 1 && r[..|g|] == g
    ensures r[|g|].data == data && r[|g|].grad == 0.0 && r[|g|].op == op
    ensures forall c :: c in r[|g|].prev <==> c in children
    ensures |r[|g|].prev| <= |children|
    ensures r[|g|].rule == Noop
    ensures WellFormed(g) ==> WellFormed(r)
    ensures Fresh(g) ==> Fresh(r)
  {
    g + [Node(data, 0.0, ChildSet(children), op, Noop)]
  }

  /** `add`: a new node holding the sum, with operands {a, b}, label "+", and
      the rule that passes its gradient unchanged to both operands. */
  function Add(g: Graph, a: nat, b: nat): (r: Graph)
    requires a < |g| && b < |g|
    ensures |r| == |g| + 1 && r[..|g|] == g
    ensures r[|g|].data == g[a].data + g[b].data && r[|g|].grad == 0.0
    ensures r[|g|].prev == {a, b} && r[|g|].op == "+"
    ensures r[|g|].rule == AddBack(a, b)
    ensures WellFormed(g) ==> WellFormed(r)
    ensures Fresh(g) ==> Fresh(r)
  {
    var n := NewNode(g, g[a].data + g[b].data, [a, b], "+");
    n[|g| := n[|g|].(rule := AddBack(a, b))]
  }

  /** `multiply`: a new node holding the product, with operands {a, b}, label
      "*", and the product rule. */
  function Multiply(g: Graph, a: nat, b: nat): (r: Graph)
    requires a < |g| && b < |g|
    ensures |r| == |g| + 1 && r[..|g|] == g
    ensures r[|g|].data == g[a].data * g[b].data && r[|g|].grad == 0.0
    ensures r[|g|].prev == {a, b} && r[|g|].op == "*"
    ensures r[|g|].rule == MulBack(a, b)
    ensures WellFormed(g) ==> WellFormed(r)
    ensures Fresh(g) ==> Fresh(r)
  {
    var n := NewNode(g, g[a].data * g[b].data, [a, b], "*");
    n[|g| := n[|g|].(rule := MulBack(a, b))]
  }

  /** `node.grad += d` */
  function Bump(g: Graph, i: nat, d: real): Graph
    requires i < |g|
  {
    g[i := g[i].(grad := g[i].grad + d)]
  }

  /** What the rule of consumer `v` adds to the gradient of `x` when `v`'s own
      gradient is `gv`: the local partial derivative times `gv`, counted once
      per operand slot that names `x`. */
  function Local(g: Graph, v: nat, x: nat, gv: real): real
    requires WellFormed(g) && v < |g|
  {
    match g[v].rule
    case Noop => 0.0
    case AddBack(a, b) =>
      (if a == x then gv else 0.0) + (if b == x then gv else 0.0)
    case MulBack(a, b) =>
      (if a == x then g[b].data * gv else 0.0) + (if b == x then g[a].data * gv else 0.0)
  }

  /** Runs the backward rule of node `v`, performing the closure's two `+=`
      updates one after the other. Only gradients change; every node gains
      exactly its local contribution from `v`. */
  function RunRule(g: Graph, v: nat): (r: Graph)
    requires WellFormed(g) && v < |g|
    ensures SameShape(g, r)
    ensures forall x :: 0 <= x < |g| ==> r[x].grad == g[x].grad + Local(g, v, x, g[v].grad)
  {
    match g[v].rule
    case Noop => g
    case AddBack(a, b) =>
      var g1 := Bump(g, a, g[v].grad);
      Bump(g1, b, g1[v].grad)
    case MulBack(a, b) =>
      var g1 := Bump(g, a, g[b].data * g[v].grad);
      Bump(g1, b, g1[a].data * g1[v].grad)
  }

  /** A leaf's default rule changes nothing. */
  lemma LeafRuleIsInert(g: Graph, data: real)
    requires WellFormed(g)
    ensures RunRule(NewLeaf(g, data), |g|) == NewLeaf(g, data)
  {
  }

  /** `add(x, x)` records `x` only once as an operand, yet its rule still
      raises `x`'s gradient twice, once per captured argument. */
  lemma AddSameOperand(g: Graph, x: nat, h: Graph)
    requires WellFormed(g) && x < |g|
    requires SameShape(Add(g, x, x), h)
    ensures |h[|g|].prev| == 1
    ensures RunRule(h, |g|)[x].grad == h[x].grad + 2.0 * h[|g|].grad
  {
    assert h[|g|].prev == {x};
  }

  /** The add rule raises each distinct operand by the result's gradient and
      leaves every other gradient and all data alone. */
  lemma AddRule(g: Graph, a: nat, b: nat, h: Graph)
    requires WellFormed(g) && a < |g| && b < |g| && a != b
    requires SameShape(Add(g, a, b), h)
    ensures RunRule(h, |g|)[a].grad == h[a].grad + h[|g|].grad
    ensures RunRule(h, |g|)[b].grad == h[b].grad + h[|g|].grad
    ensures forall x :: 0 <= x < |h| && x != a && x != b ==> RunRule(h, |g|)[x].grad == h[x].grad
    ensures SameShape(h, RunRule(h, |g|))
  {
  }

  /** The product rule: each operand gains the other's data times the result's
      gradient; every other gradient and all data are untouched. */
  lemma MulRule(g: Graph, a: nat, b: nat, h: Graph)
    requires WellFormed(g) && a < |g| && b < |g| && a != b
    requires SameShape(Multiply(g, a, b), h)
    ensures RunRule(h, |g|)[a].grad == h[a].grad + h[b].data * h[|g|].grad
    ensures RunRule(h, |g|)[b].grad == h[b].grad + h[a].data * h[|g|].grad
    ensures forall x :: 0 <= x < |h| && x != a && x != b ==> RunRule(h, |g|)[x].grad == h[x].grad
    ensures SameShape(h, RunRule(h, |g|))
  {
  }
}

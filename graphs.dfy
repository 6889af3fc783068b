/**
 The network model shared by every solver: an undirected graph whose nodes carry a
 processing delay and a reliability, and whose links carry a bandwidth, a delay and a
 reliability. Attributes are optional, as in the dictionaries of the original graph:
 `None` is a missing key. A lookup with a default is `GetOr`; a strict lookup of a key
 that may be missing becomes a precondition of the operation doing it.
 */
module Graphs {

  type Node = int
  type Edge = (Node, Node)
  type Path = seq<Node>

  datatype Option<T> = None | Some(value: T)

  /** The exceptions the modelled code can raise on its own inputs. */
  datatype Error =
    | ZeroDivision          // `Q / cost` with a zero cost
    | EmptySequence         // `random.choice` or `max` of an empty sequence
    | EmptyRange            // `random.randint(a, b)` with `b < a`
    | SampleLargerThanPopulation  // `random.sample(population, k)` with `k > len(population)`
    | NoneHasNoLength       // `len(None)`
    | OutOfFuel             // a loop without a budget in the source ran past the model's bound

  datatype Result<T> = Ok(value: T) | Err(error: Error)

  datatype NodeAttrs = NodeAttrs(processingDelay: Option<real>, nodeReliability: Option<real>)

  datatype EdgeAttrs = EdgeAttrs(bandwidth: Option<real>, linkDelay: Option<real>, linkReliability: Option<real>)

  /** `nodes` holds every node with its attributes, `adj` its neighbours in iteration order,
      `edges` the attributes of each link, stored under both orientations. */
  datatype Graph = Graph(nodes: map<Node, NodeAttrs>, adj: map<Node, seq<Node>>, edges: map<Edge, EdgeAttrs>)

  datatype Weights = Weights(delay: real, reliability: real, resource: real)

  function GetOr(o: Option<real>, default: real): (r: real)
    ensures o.Some? ==> r == o.value
    ensures o.None? ==> r == default
  {
    match o
    case Some(v) => v
    case None => default
  }

  function Max(a: real, b: real): (r: real)
    ensures r >= a && r >= b && (r == a || r == b)
  {
    if a >= b then a else b
  }

  function Min(a: real, b: real): (r: real)
    ensures r <= a && r <= b && (r == a || r == b)
  {
    if a <= b then a else b
  }

  function Last(p: Path): Node
    requires |p| > 0
  {
    p[|p| - 1]
  }

  /** Number of consecutive pairs of a node sequence (`range(len(path) - 1)`). */
  function LinkCount(p: Path): (n: nat)
    ensures |p| > 0 ==> n == |p| - 1
    ensures |p| == 0 ==> n == 0
  {
    if |p| == 0 then 0 else |p| - 1
  }

  predicate HasNode(g: Graph, n: Node) {
    n in g.nodes
  }

  predicate HasEdge(g: Graph, u: Node, v: Node) {
    (u, v) in g.edges
  }

  predicate Adjacent(g: Graph, u: Node, v: Node) {
    u in g.adj && v in g.adj[u]
  }

  predicate Distinct(p: Path) {
    forall i, j :: 0 <= i < j < |p| ==> p[i] != p[j]
  }

  /** The structural invariant of an undirected graph: one adjacency list per node,
      without repeats, listing exactly the nodes joined to it, and one attribute record
      per link, the same under both orientations. */
  ghost predicate Valid(g: Graph) {
    && g.adj.Keys == g.nodes.Keys
    && (forall u, v :: HasEdge(g, u, v) ==> HasNode(g, u) && HasNode(g, v) && HasEdge(g, v, u) && g.edges[(v, u)] == g.edges[(u, v)])
    && (forall u, v :: Adjacent(g, u, v) <==> HasEdge(g, u, v))
    && (forall u :: u in g.adj ==> Distinct(g.adj[u]))
  }

  function Neighbors(g: Graph, u: Node): seq<Node>
    requires HasNode(g, u) && g.adj.Keys == g.nodes.Keys
  {
    g.adj[u]
  }

  lemma NeighborIsEdge(g: Graph, u: Node, v: Node)
    requires Valid(g) && HasNode(g, u)
    ensures v in Neighbors(g, u) <==> HasEdge(g, u, v)
    ensures v in Neighbors(g, u) ==> HasNode(g, v)
  {
    assert v in Neighbors(g, u) <==> Adjacent(g, u, v);
  }

  /** The i-th consecutive pair of `p` is a link of `g`. */
  predicate LinkAt(g: Graph, p: Path, i: int) {
    0 <= i < |p| - 1 && HasEdge(g, p[i], p[i + 1])
  }

  predicate NodeAt(g: Graph, p: Path, i: int) {
    0 <= i < |p| && HasNode(g, p[i])
  }

  /** Every consecutive pair is a link. */
  predicate IsWalk(g: Graph, p: Path) {
    forall i :: 0 <= i < |p| - 1 ==> LinkAt(g, p, i)
  }

  predicate NodesIn(g: Graph, p: Path) {
    forall i :: 0 <= i < |p| ==> NodeAt(g, p, i)
  }

  lemma {:induction false} WalkNodesIn(g: Graph, p: Path)
    requires Valid(g) && IsWalk(g, p) && |p| >= 2
    ensures NodesIn(g, p)
  {
    forall i | 0 <= i < |p|
      ensures NodeAt(g, p, i)
    {
      if i < |p| - 1 {
        assert LinkAt(g, p, i);
      } else {
        assert LinkAt(g, p, i - 1);
      }
    }
  }

  /** A simple path from `s` to `d`, as the ant colony produces it. */
  predicate SimplePath(g: Graph, p: Path, s: Node, d: Node) {
    |p| >= 1 && p[0] == s && Last(p) == d && IsWalk(g, p) && NodesIn(g, p) && Distinct(p)
  }

  lemma {:induction false} WalkExtend(g: Graph, p: Path, v: Node)
    requires |p| >= 1 && IsWalk(g, p) && NodesIn(g, p) && HasEdge(g, Last(p), v) && HasNode(g, v)
    ensures IsWalk(g, p + [v]) && NodesIn(g, p + [v])
  {
    var q := p + [v];
    forall i | 0 <= i < |q| - 1 ensures LinkAt(g, q, i) {
      if i < |p| - 1 { assert LinkAt(g, p, i); }
    }
    forall i | 0 <= i < |q| ensures NodeAt(g, q, i) {
      if i < |p| { assert NodeAt(g, p, i); }
    }
  }

  lemma DistinctExtend(p: Path, v: Node)
    requires Distinct(p) && v !in p
    ensures Distinct(p + [v])
  {
  }

  /** A non-empty set has a member to pick. */
  lemma NonEmptyHasMember(s: set<Node>)
    requires s != {}
    ensures exists x :: x in s
  {
    if forall x :: x !in s {
      assert false;
    }
  }

  /** The two laws of x |-> -ln x that the model relies on: it is non-negative on (0, 1]
      and turns products of positive numbers into sums. */
  ghost predicate NegLogLaws(negLog: real -> real) {
    && (forall r :: 0.0 < r <= 1.0 ==> negLog(r) >= 0.0)
    && (forall a, b :: 0.0 < a && 0.0 < b ==> negLog(Times(a, b)) == negLog(a) + negLog(b))
  }

  /** Multiplication under a name, so that the product law is used only where a proof asks for it. */
  function Times(a: real, b: real): real {
    a * b
  }

  lemma NegLogOfOne(negLog: real -> real)
    requires NegLogLaws(negLog)
    ensures negLog(1.0) == 0.0
  {
    assert Times(1.0, 1.0) == 1.0;
    assert negLog(Times(1.0, 1.0)) == negLog(1.0) + negLog(1.0);
  }

  lemma NegLogOfProduct(negLog: real -> real, a: real, b: real)
    requires NegLogLaws(negLog) && 0.0 < a && 0.0 < b
    ensures negLog(a * b) == negLog(a) + negLog(b)
  {
    assert negLog(Times(a, b)) == negLog(a) + negLog(b);
  }

  /** Attributes in the ranges of the network model: non-negative delays, positive
      bandwidths, reliabilities in (0, 1], and no attribute missing. */
  predicate NodeInRange(a: NodeAttrs) {
    && a.processingDelay.Some? && a.processingDelay.value >= 0.0
    && a.nodeReliability.Some? && 0.0 < a.nodeReliability.value <= 1.0
  }

  predicate EdgeInRange(a: EdgeAttrs) {
    && a.bandwidth.Some? && a.bandwidth.value > 0.0
    && a.linkDelay.Some? && a.linkDelay.value >= 0.0
    && a.linkReliability.Some? && 0.0 < a.linkReliability.value <= 1.0
  }

  ghost predicate InRange(g: Graph) {
    && (forall n :: n in g.nodes ==> NodeInRange(g.nodes[n]))
    && (forall e :: e in g.edges ==> EdgeInRange(g.edges[e]))
  }

  predicate NonNegWeights(w: Weights) {
    w.delay >= 0.0 && w.reliability >= 0.0 && w.resource >= 0.0
  }
}

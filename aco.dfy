/**
 The ant colony solver. Each ant walks from the source, choosing among unvisited neighbours
 with weight tau^alpha * eta^beta, where tau is the pheromone on the link and eta the inverse
 of the link's weighted cost. Ants that reach the destination deposit Q / cost on their links,
 the best path found so far deposits again, and then all pheromone evaporates.

 Random choices are nondeterministic (`:|`): the model states which outcomes are possible,
 not their probabilities. Real powers are a function parameter `pow`.
 */
module Aco {
  import opened Graphs
  import opened Metrics

  // ---------------------------------------------------------------------------
  // compute_edge_cost and the heuristic map
  // ---------------------------------------------------------------------------

  /** What `compute_edge_cost` looks up strictly: the three attributes of the link, with a
      non-zero bandwidth and a positive reliability. */
  predicate EdgeCostDefined(g: Graph, u: Node, v: Node) {
    && HasEdge(g, u, v)
    && g.edges[(u, v)].linkDelay.Some?
    && g.edges[(u, v)].bandwidth.Some? && g.edges[(u, v)].bandwidth.value != 0.0
    && g.edges[(u, v)].linkReliability.Some? && g.edges[(u, v)].linkReliability.value > 0.0
  }

  /** The weighted local cost of one link: the weighted sum of the one-link path `[u, v]`
      without the reliability terms of its two end nodes. */
  function EdgeCost(g: Graph, negLog: real -> real, u: Node, v: Node, w: Weights): (c: real)
    requires EdgeCostDefined(g, u, v)
    ensures MetricsDefined(g, [u, v]) ==>
              WeightedSum(g, negLog, [u, v], w)
              == c + w.reliability * negLog(NodeReliabilityAt(g, [u, v], 0)) + w.reliability * negLog(NodeReliabilityAt(g, [u, v], 1))
  {
    var a := g.edges[(u, v)];
    var c := w.delay * a.linkDelay.value + w.resource * (1000.0 / a.bandwidth.value) + w.reliability * negLog(a.linkReliability.value);
    assert MetricsDefined(g, [u, v]) ==>
             WeightedSum(g, negLog, [u, v], w)
             == c + w.reliability * negLog(NodeReliabilityAt(g, [u, v], 0)) + w.reliability * negLog(NodeReliabilityAt(g, [u, v], 1)) by {
      if MetricsDefined(g, [u, v]) {
        var p := [u, v];
        var l, n0, n1 := negLog(a.linkReliability.value), negLog(NodeReliabilityAt(g, p, 0)), negLog(NodeReliabilityAt(g, p, 1));
        assert LinkAttrs(g, p, 0) == a && LinkCount(p) == 1;
        assert LinkDelayUpTo(g, p, 1) == LinkDelayAt(g, p, 0) == a.linkDelay.value;
        assert ProcessingUpTo(g, p, 1) == 0.0;
        assert PathDelay(g, p) == a.linkDelay.value;
        var acc := LinkRelCostUpTo(g, negLog, p, 1);
        assert LinkReliabilityAt(g, p, 0) == a.linkReliability.value;
        assert acc == LinkRelCostUpTo(g, negLog, p, 0) + negLog(LinkReliabilityAt(g, p, 0)) == l;
        assert NodeRelCostUpTo(g, negLog, p, 1, acc) == acc + n0;
        assert PathReliabilityCost(g, negLog, p) == NodeRelCostUpTo(g, negLog, p, 2, acc) == l + n0 + n1;
        assert ResourceUpTo(g, p, 1) == 1000.0 / BandwidthAt(g, p, 0);
        assert PathResourceCost(g, p) == 1000.0 / a.bandwidth.value;
        assert w.reliability * (l + n0 + n1) == w.reliability * l + w.reliability * n0 + w.reliability * n1;
      }
    }
    c
  }

  lemma ScorableEdgeCostDefined(g: Graph, u: Node, v: Node)
    requires Scorable(g) && HasEdge(g, u, v)
    ensures EdgeCostDefined(g, u, v)
  {
    assert (u, v) in g.edges;
  }

  /** A link costs the same in both directions. */
  lemma EdgeCostSymmetric(g: Graph, negLog: real -> real, u: Node, v: Node, w: Weights)
    requires Valid(g) && EdgeCostDefined(g, u, v)
    ensures EdgeCostDefined(g, v, u)
    ensures EdgeCost(g, negLog, v, u, w) == EdgeCost(g, negLog, u, v, w)
  {
    assert HasEdge(g, u, v);
  }

  /** Under non-negative weights and in-range attributes every link cost is non-negative. */
  lemma EdgeCostNonNeg(g: Graph, negLog: real -> real, u: Node, v: Node, w: Weights)
    requires InRange(g) && NegLogLaws(negLog) && NonNegWeights(w) && HasEdge(g, u, v)
    ensures EdgeCostDefined(g, u, v)
    ensures EdgeCost(g, negLog, u, v, w) >= 0.0
  {
    var a := g.edges[(u, v)];
    assert EdgeInRange(a);
    assert 1000.0 / a.bandwidth.value > 0.0 by { PositiveQuotient(1000.0, a.bandwidth.value); }
    NonNegProduct(w.delay, a.linkDelay.value);
    NonNegProduct(w.resource, 1000.0 / a.bandwidth.value);
    NonNegProduct(w.reliability, negLog(a.linkReliability.value));
  }

  lemma PositiveQuotient(q: real, c: real)
    requires q > 0.0 && c > 0.0
    ensures q / c > 0.0
  {
  }

  /** A factor of a non-negative product with a positive factor is non-negative. */
  lemma NonNegFactor(x: real, m: real)
    requires m > 0.0 && x * m >= 0.0
    ensures x >= 0.0
  {
  }

  const HeuristicFloor: real := 0.0001

  /** `1 / max(0.0001, cost)`: the attractiveness of a link, larger for cheaper links. */
  function Heuristic(cost: real): (h: real)
    ensures 0.0 < h <= 10000.0
    ensures cost >= HeuristicFloor ==> h * cost == 1.0
    ensures cost <= HeuristicFloor ==> h == 10000.0
  {
    ReciprocalBound(Max(HeuristicFloor, cost));
    1.0 / Max(HeuristicFloor, cost)
  }

  lemma ReciprocalBound(m: real)
    requires m >= HeuristicFloor
    ensures 0.0 < 1.0 / m <= 10000.0
    ensures (1.0 / m) * m == 1.0
  {
    PositiveQuotient(1.0, m);
    NonNegProduct(1.0 / m, m - HeuristicFloor);
  }

  /** A cheaper link is at least as attractive as a dearer one. */
  lemma HeuristicAntitone(c1: real, c2: real)
    requires c1 <= c2
    ensures Heuristic(c2) <= Heuristic(c1)
  {
    var m1, m2 := Max(HeuristicFloor, c1), Max(HeuristicFloor, c2);
    var h1, h2 := Heuristic(c1), Heuristic(c2);
    assert h1 * m1 == 1.0 && h2 * m2 == 1.0 by { ReciprocalBound(m1); ReciprocalBound(m2); }
    NonNegProduct(h2, m2 - m1);
    assert (h1 - h2) * m1 >= 0.0;
    NonNegFactor(h1 - h2, m1);
  }

  /** Every key of `h` is a link whose entry is the heuristic of its cost. */
  ghost predicate HeuristicEntries(g: Graph, negLog: real -> real, w: Weights, h: map<Edge, real>) {
    forall u, v :: (u, v) in h ==> EdgeCostDefined(g, u, v) && h[(u, v)] == Heuristic(EdgeCost(g, negLog, u, v, w))
  }

  /** Setting both orientations of a link to its heuristic keeps the entries right. */
  lemma HeuristicEntriesStep(g: Graph, negLog: real -> real, w: Weights, h: map<Edge, real>, u: Node, v: Node)
    requires Valid(g) && Scorable(g) && HasEdge(g, u, v) && HeuristicEntries(g, negLog, w, h)
    ensures EdgeCostDefined(g, u, v)
    ensures HeuristicEntries(g, negLog, w, h[(u, v) := Heuristic(EdgeCost(g, negLog, u, v, w))][(v, u) := Heuristic(EdgeCost(g, negLog, u, v, w))])
  {
    ScorableEdgeCostDefined(g, u, v);
    EdgeCostSymmetric(g, negLog, u, v, w);
  }

  /** Every link has a heuristic value, the same under both orientations. */
  method BuildHeuristicMap(g: Graph, negLog: real -> real, w: Weights) returns (h: map<Edge, real>)
    requires Valid(g) && Scorable(g)
    ensures h.Keys == g.edges.Keys
    ensures HeuristicEntries(g, negLog, w, h)
  {
    h := map[];
    var todo := g.edges.Keys;
    while todo != {}
      invariant todo <= g.edges.Keys
      invariant h.Keys == g.edges.Keys - todo
      invariant forall u, v :: (u, v) in todo ==> (v, u) in todo
      invariant HeuristicEntries(g, negLog, w, h)
      decreases |todo|
    {
      var e :| e in todo;
      var (u, v) := e;
      HeuristicEntriesStep(g, negLog, w, h, u, v);
      var hv := Heuristic(EdgeCost(g, negLog, u, v, w));
      h := h[(u, v) := hv][(v, u) := hv];
      todo := todo - {(u, v), (v, u)};
    }
  }

  const InitialPheromone: real := 0.1

  /** Every link, under both orientations, starts with the same pheromone. */
  method InitializePheromones(g: Graph, initial: real) returns (tau: map<Edge, real>)
    ensures tau.Keys == g.edges.Keys
    ensures forall e :: e in tau ==> tau[e] == initial
  {
    tau := map[];
    var todo := g.edges.Keys;
    while todo != {}
      invariant todo <= g.edges.Keys
      invariant tau.Keys == g.edges.Keys - todo
      invariant forall e :: e in tau ==> tau[e] == initial
      decreases |todo|
    {
      var e :| e in todo;
      tau := tau[e := initial];
      todo := todo - {e};
    }
  }

  // ---------------------------------------------------------------------------
  // choose_next_node and build_path
  // ---------------------------------------------------------------------------

  /** The neighbours not yet visited, in adjacency order. */
  function Candidates(nbrs: seq<Node>, visited: set<Node>): (c: seq<Node>)
    ensures forall v :: v in c <==> v in nbrs && v !in visited
  {
    if |nbrs| == 0 then []
    else
      var init, v := nbrs[..|nbrs| - 1], nbrs[|nbrs| - 1];
      assert nbrs == init + [v];
      Candidates(init, visited) + (if v in visited then [] else [v])
  }

  function Attractiveness(tau: map<Edge, real>, h: map<Edge, real>, u: Node, v: Node,
                          alpha: real, beta: real, pow: (real, real) -> real): real
    requires (u, v) in tau && (u, v) in h
  {
    pow(tau[(u, v)], alpha) * pow(h[(u, v)], beta)
  }

  /** The selection weight of each candidate, in candidate order. */
  function CandidateWeights(tau: map<Edge, real>, h: map<Edge, real>, u: Node, cands: seq<Node>,
                            alpha: real, beta: real, pow: (real, real) -> real): (ws: seq<real>)
    requires forall v :: v in cands ==> (u, v) in tau && (u, v) in h
    ensures |ws| == |cands|
    ensures forall k :: 0 <= k < |cands| ==> ws[k] == Attractiveness(tau, h, u, cands[k], alpha, beta, pow)
  {
    if |cands| == 0 then []
    else
      var init := cands[..|cands| - 1];
      CandidateWeights(tau, h, u, init, alpha, beta, pow) + [Attractiveness(tau, h, u, cands[|cands| - 1], alpha, beta, pow)]
  }

  /** Left-to-right sum, as Python's `sum`. */
  function SumOf(s: seq<real>): real {
    if |s| == 0 then 0.0 else SumOf(s[..|s| - 1]) + s[|s| - 1]
  }

  predicate NonNegSeq(s: seq<real>) {
    forall k :: 0 <= k < |s| ==> s[k] >= 0.0
  }

  /** A non-zero total of non-negative weights has a positive weight in it. */
  lemma {:induction false} PositiveSumHasPositiveTerm(s: seq<real>)
    requires NonNegSeq(s)
    requires SumOf(s) != 0.0
    ensures exists k :: 0 <= k < |s| && s[k] > 0.0
  {
    var init := s[..|s| - 1];
    if s[|s| - 1] <= 0.0 {
      assert SumOf(init) != 0.0;
      PositiveSumHasPositiveTerm(init);
      var k :| 0 <= k < |init| && init[k] > 0.0;
      assert s[k] == init[k];
    }
  }

  /** Both tables hold every link the ant may take from `u`. */
  predicate Offerable(g: Graph, tau: map<Edge, real>, h: map<Edge, real>, u: Node) {
    && HasNode(g, u) && g.adj.Keys == g.nodes.Keys
    && forall v :: v in Neighbors(g, u) ==> (u, v) in tau && (u, v) in h
  }

  /** Both tables hold every link of the graph. */
  ghost predicate Ready(g: Graph, tau: map<Edge, real>, h: map<Edge, real>) {
    forall u, v :: HasEdge(g, u, v) ==> (u, v) in tau && (u, v) in h
  }

  lemma ReadyOfferable(g: Graph, tau: map<Edge, real>, h: map<Edge, real>, u: Node)
    requires Valid(g) && Ready(g, tau, h) && HasNode(g, u)
    ensures Offerable(g, tau, h, u)
  {
    forall v | v in Neighbors(g, u) ensures (u, v) in tau && (u, v) in h {
      NeighborIsEdge(g, u, v);
    }
  }

  /** The weights offered at `u`, as `choose_next_node` computes them. */
  function OfferedWeights(g: Graph, tau: map<Edge, real>, h: map<Edge, real>, u: Node, visited: set<Node>,
                          alpha: real, beta: real, pow: (real, real) -> real): seq<real>
    requires Offerable(g, tau, h, u)
  {
    CandidateWeights(tau, h, u, Candidates(Neighbors(g, u), visited), alpha, beta, pow)
  }

  /** The loop of `choose_next_node`: the unvisited neighbours with their weights. */
  method OfferedCandidates(g: Graph, tau: map<Edge, real>, current: Node, visited: set<Node>, h: map<Edge, real>,
                           alpha: real, beta: real, pow: (real, real) -> real) returns (cands: seq<Node>, ws: seq<real>)
    requires Offerable(g, tau, h, current)
    ensures cands == Candidates(Neighbors(g, current), visited)
    ensures ws == OfferedWeights(g, tau, h, current, visited, alpha, beta, pow)
  {
    var nbrs := Neighbors(g, current);
    cands := [];
    ws := [];
    for i := 0 to |nbrs|
      invariant cands == Candidates(nbrs[..i], visited)
      invariant ws == CandidateWeights(tau, h, current, cands, alpha, beta, pow)
    {
      var v := nbrs[i];
      assert nbrs[..i + 1][..i] == nbrs[..i];
      if v !in visited {
        ghost var prev := cands;
        cands := cands + [v];
        assert cands[..|cands| - 1] == prev;
        ws := ws + [Attractiveness(tau, h, current, v, alpha, beta, pow)];
      }
    }
    assert nbrs[..|nbrs|] == nbrs;
  }

  /** `None` exactly when every neighbour is visited; otherwise an unvisited neighbour. When the
      total weight is zero any candidate may be chosen; otherwise, with non-negative weights,
      only a candidate of positive weight. */
  method ChooseNextNode(g: Graph, tau: map<Edge, real>, current: Node, visited: set<Node>, h: map<Edge, real>,
                        alpha: real, beta: real, pow: (real, real) -> real) returns (next: Option<Node>)
    requires Offerable(g, tau, h, current)
    ensures next.None? <==> forall v :: v in Neighbors(g, current) ==> v in visited
    ensures next.Some? ==> next.value in Neighbors(g, current) && next.value !in visited
    ensures next.Some? && SumOf(OfferedWeights(g, tau, h, current, visited, alpha, beta, pow)) != 0.0
            && NonNegSeq(OfferedWeights(g, tau, h, current, visited, alpha, beta, pow))
            ==> Attractiveness(tau, h, current, next.value, alpha, beta, pow) > 0.0
  {
    var cands, ws := OfferedCandidates(g, tau, current, visited, h, alpha, beta, pow);
    if |cands| == 0 {
      return None;
    }
    var total := SumOf(ws);
    if total == 0.0 {
      var k :| 0 <= k < |cands|;
      next := Some(cands[k]);
    } else {
      var nonNeg := NonNegSeq(ws);
      if nonNeg {
        PositiveSumHasPositiveTerm(ws);
      }
      var k :| 0 <= k < |cands| && (nonNeg ==> ws[k] > 0.0);
      next := Some(cands[k]);
      assert ws[k] == Attractiveness(tau, h, current, cands[k], alpha, beta, pow);
    }
  }

  /** A walk from `s` that has not reached `d` and whose last node has no unvisited neighbour. */
  predicate DeadEnd(g: Graph, w: Path, s: Node, d: Node) {
    && |w| >= 1 && w[0] == s && Last(w) != d
    && IsWalk(g, w) && NodesIn(g, w) && Distinct(w)
    && HasNode(g, Last(w)) && g.adj.Keys == g.nodes.Keys
    && forall v :: v in Neighbors(g, Last(w)) ==> v in w
  }

  /** One ant: a simple path from `s` to `d`, or `None` after reaching a dead end. */
  method BuildPath(g: Graph, tau: map<Edge, real>, s: Node, d: Node, h: map<Edge, real>,
                   alpha: real, beta: real, pow: (real, real) -> real) returns (path: Option<Path>)
    requires Valid(g) && Ready(g, tau, h) && HasNode(g, s)
    ensures path.Some? ==> SimplePath(g, path.value, s, d)
    ensures path.None? ==> exists w :: DeadEnd(g, w, s, d)
    ensures s == d ==> path == Some([s])
  {
    var current := s;
    var visited := {s};
    var p := [s];
    while current != d
      invariant |p| >= 1 && p[0] == s && Last(p) == current
      invariant IsWalk(g, p) && NodesIn(g, p) && Distinct(p)
      invariant HasNode(g, current)
      invariant forall x :: x in visited <==> x in p
      invariant visited <= g.nodes.Keys
      invariant s == d ==> p == [s]
      decreases g.nodes.Keys - visited
    {
      assert NodeAt(g, p, |p| - 1);
      ReadyOfferable(g, tau, h, current);
      var next := ChooseNextNode(g, tau, current, visited, h, alpha, beta, pow);
      if next.None? {
        assert DeadEnd(g, p, s, d);
        return None;
      }
      var v := next.value;
      NeighborIsEdge(g, current, v);
      WalkExtend(g, p, v);
      DistinctExtend(p, v);
      visited := visited + {v};
      p := p + [v];
      current := v;
    }
    return Some(p);
  }

  // ---------------------------------------------------------------------------
  // evaluate_path
  // ---------------------------------------------------------------------------

  /** The scalar cost of a path with its three components, the scalar being the same weighted
      sum as `weighted_sum_method`. */
  function EvaluatePath(p: Path, g: Graph, negLog: real -> real, w: Weights): (r: (real, real, real, real))
    requires MetricsDefined(g, p)
    ensures r.0 == WeightedSum(g, negLog, p, w)
    ensures (r.1, r.2, r.3) == (PathDelay(g, p), PathReliabilityCost(g, negLog, p), PathResourceCost(g, p))
  {
    var td := PathDelay(g, p);
    var rc := PathReliabilityCost(g, negLog, p);
    var rs := PathResourceCost(g, p);
    (w.delay * td + w.reliability * rc + w.resource * rs, td, rc, rs)
  }

  /** The three metrics of a walk of a scorable graph. */
  function MetricsOf(g: Graph, negLog: real -> real, p: Path): (real, real, real)
    requires Scorable(g) && IsWalk(g, p) && NodesIn(g, p)
  {
    ScorableWalkMetricsDefined(g, p);
    (PathDelay(g, p), PathReliabilityCost(g, negLog, p), PathResourceCost(g, p))
  }

  // ---------------------------------------------------------------------------
  // The pheromone table: evaporate_pheromone and deposit_pheromone
  // ---------------------------------------------------------------------------

  /** Pheromone laid on the first k links of `path` under key `e`: each link adds `amount`
      to both of its orientations. */
  function DepositedOn(path: Path, e: Edge, k: nat, amount: real): real
    requires k <= LinkCount(path)
  {
    if k == 0 then 0.0
    else
      DepositedOn(path, e, k - 1, amount)
      + (if (path[k - 1], path[k]) == e then amount else 0.0)
      + (if (path[k], path[k - 1]) == e then amount else 0.0)
  }

  /** Link i of `path`, in either orientation, is `e`. */
  predicate OnLink(path: Path, i: int, e: Edge) {
    0 <= i < |path| - 1 && (e == (path[i], path[i + 1]) || e == (path[i + 1], path[i]))
  }

  /** On a path without repeated nodes each link receives the amount exactly once, under
      each orientation, and no other key receives anything. */
  lemma {:induction false} DepositedOnDistinct(path: Path, e: Edge, k: nat, amount: real)
    requires k <= LinkCount(path) && Distinct(path)
    ensures DepositedOn(path, e, k, amount) == if exists i :: 0 <= i < k && OnLink(path, i, e) then amount else 0.0
  {
    if k > 0 {
      DepositedOnDistinct(path, e, k - 1, amount);
      if OnLink(path, k - 1, e) {
        assert path[k - 1] != path[k];
        forall i | 0 <= i < k - 1 ensures !OnLink(path, i, e) {
          assert path[i] != path[k] && path[i + 1] != path[k];
        }
      }
    }
  }

  lemma {:induction false} DepositedOnNonNeg(path: Path, e: Edge, k: nat, amount: real)
    requires k <= LinkCount(path) && amount >= 0.0
    ensures DepositedOn(path, e, k, amount) >= 0.0
  {
    if k > 0 {
      DepositedOnNonNeg(path, e, k - 1, amount);
    }
  }

  /** The table holds both orientations of every link of `path`. */
  predicate Covers(tau: map<Edge, real>, path: Path) {
    forall i :: 0 <= i < |path| - 1 ==> (path[i], path[i + 1]) in tau && (path[i + 1], path[i]) in tau
  }

  lemma WalkCovered(g: Graph, tau: map<Edge, real>, p: Path)
    requires Valid(g) && IsWalk(g, p) && tau.Keys == g.edges.Keys
    ensures Covers(tau, p)
  {
    forall i | 0 <= i < |p| - 1 ensures (p[i], p[i + 1]) in tau && (p[i + 1], p[i]) in tau {
      assert LinkAt(g, p, i);
    }
  }

  /** Pointwise order of two tables over the same keys. */
  ghost predicate Le(a: map<Edge, real>, b: map<Edge, real>) {
    a.Keys == b.Keys && forall e :: e in a ==> a[e] <= b[e]
  }

  lemma LeTrans(a: map<Edge, real>, b: map<Edge, real>, c: map<Edge, real>)
    requires Le(a, b) && Le(b, c)
    ensures Le(a, c)
  {
  }

  class PheromoneTable {
    var tau: map<Edge, real>

    constructor (initial: map<Edge, real>)
      ensures tau == initial
    {
      tau := initial;
    }

    /** Every entry shrinks by the factor 1 - rho; the keys stay. */
    method Evaporate(rho: real)
      modifies this
      ensures tau.Keys == old(tau).Keys
      ensures forall e :: e in tau ==> tau[e] == old(tau)[e] * (1.0 - rho)
    {
      var todo := tau.Keys;
      while todo != {}
        invariant todo <= tau.Keys && tau.Keys == old(tau).Keys
        invariant forall e :: e in tau ==> tau[e] == if e in todo then old(tau)[e] else old(tau)[e] * (1.0 - rho)
        decreases |todo|
      {
        var e :| e in todo;
        tau := tau[e := tau[e] * (1.0 - rho)];
        todo := todo - {e};
      }
    }

    /** Adds `q / cost` to both orientations of every link of `path`; a raising division by a
        zero cost is excluded by the precondition. */
    method Deposit(path: Path, cost: real, q: real)
      requires cost != 0.0 && Covers(tau, path)
      modifies this
      ensures tau.Keys == old(tau).Keys
      ensures forall e :: e in tau ==> tau[e] == old(tau)[e] + DepositedOn(path, e, LinkCount(path), q / cost)
      ensures q / cost >= 0.0 ==> Le(old(tau), tau)
    {
      var amount := q / cost;
      for i := 0 to LinkCount(path)
        invariant tau.Keys == old(tau).Keys
        invariant forall e :: e in tau ==> tau[e] == old(tau)[e] + DepositedOn(path, e, i, amount)
      {
        var u, v := path[i], path[i + 1];
        tau := tau[(u, v) := tau[(u, v)] + amount];
        tau := tau[(v, u) := tau[(v, u)] + amount];
      }
      if amount >= 0.0 {
        forall e | e in tau ensures old(tau)[e] <= tau[e] {
          DepositedOnNonNeg(path, e, LinkCount(path), amount);
        }
      }
    }
  }

  // ---------------------------------------------------------------------------
  // ACO
  // ---------------------------------------------------------------------------

  datatype Cost = Infinite | Finite(value: real)

  /** `cost < best_cost` with `best_cost` starting at infinity. */
  predicate Below(c: real, best: Cost) {
    best.Infinite? || c < best.value
  }

  /** What `ACO` returns: the best path, its cost and its three metrics. */
  datatype Best = Best(path: Option<Path>, cost: Cost, metrics: Option<(real, real, real)>)

  ghost predicate AllSimple(g: Graph, found: seq<Path>, s: Node, d: Node) {
    forall i :: 0 <= i < |found| ==> SimplePath(g, found[i], s, d)
  }

  /** `found[i]` is the first path of least cost among `found`. */
  ghost predicate IsFirstMin(g: Graph, negLog: real -> real, w: Weights, s: Node, d: Node, found: seq<Path>, i: int)
    requires Scorable(g) && AllSimple(g, found, s, d) && 0 <= i < |found|
  {
    && (forall j :: 0 <= j < i ==> PathScore(g, negLog, found[j], w) > PathScore(g, negLog, found[i], w))
    && (forall j :: i < j < |found| ==> PathScore(g, negLog, found[j], w) >= PathScore(g, negLog, found[i], w))
  }

  ghost predicate IsBestAt(g: Graph, negLog: real -> real, w: Weights, s: Node, d: Node, found: seq<Path>, b: Best, i: int)
    requires Scorable(g) && AllSimple(g, found, s, d)
  {
    && 0 <= i < |found| && IsFirstMin(g, negLog, w, s, d, found, i)
    && b.path == Some(found[i])
    && b.cost == Finite(PathScore(g, negLog, found[i], w))
    && b.metrics == Some(MetricsOf(g, negLog, found[i]))
  }

  /** The record `ACO` keeps: nothing before any ant succeeds, afterwards the first
      cheapest path found and its cost and metrics. */
  ghost predicate IsBestOf(g: Graph, negLog: real -> real, w: Weights, s: Node, d: Node, found: seq<Path>, b: Best)
    requires Scorable(g) && AllSimple(g, found, s, d)
  {
    || (found == [] && b == Best(None, Infinite, None))
    || exists i :: IsBestAt(g, negLog, w, s, d, found, b, i)
  }

  ghost predicate AllPositive(g: Graph, negLog: real -> real, w: Weights, s: Node, d: Node, found: seq<Path>)
    requires Scorable(g) && AllSimple(g, found, s, d)
  {
    forall i :: 0 <= i < |found| ==> PathScore(g, negLog, found[i], w) > 0.0
  }

  ghost predicate AllNonZero(g: Graph, negLog: real -> real, w: Weights, s: Node, d: Node, found: seq<Path>)
    requires Scorable(g) && AllSimple(g, found, s, d)
  {
    forall i :: 0 <= i < |found| ==> PathScore(g, negLog, found[i], w) != 0.0
  }

  /** Appending a simple path keeps the facts tracked about the paths found. */
  lemma Appended(g: Graph, negLog: real -> real, w: Weights, s: Node, d: Node, prev: seq<Path>, p: Path)
    requires Scorable(g) && AllSimple(g, prev, s, d) && SimplePath(g, p, s, d)
    ensures AllSimple(g, prev + [p], s, d)
    ensures AllNonZero(g, negLog, w, s, d, prev) && PathScore(g, negLog, p, w) != 0.0 ==> AllNonZero(g, negLog, w, s, d, prev + [p])
    ensures AllPositive(g, negLog, w, s, d, prev + [p]) ==> AllPositive(g, negLog, w, s, d, prev) && PathScore(g, negLog, p, w) > 0.0
  {
    var f := prev + [p];
    assert forall i :: 0 <= i < |prev| ==> f[i] == prev[i];
    assert f[|prev|] == p;
  }

  /** A prefix of the paths found keeps the facts tracked about them. */
  lemma PrefixKeeps(g: Graph, negLog: real -> real, w: Weights, s: Node, d: Node, prev: seq<Path>, found: seq<Path>)
    requires Scorable(g) && AllSimple(g, found, s, d) && prev <= found
    ensures AllSimple(g, prev, s, d)
    ensures AllPositive(g, negLog, w, s, d, found) ==> AllPositive(g, negLog, w, s, d, prev)
  {
    assert forall i :: 0 <= i < |prev| ==> found[i] == prev[i];
  }

  /** Pheromone one successful ant lays under key `e`: Q = 1 over its path's cost on each link
      of its path (a zero cost raises instead, and lays nothing). */
  function AntDeposit(g: Graph, negLog: real -> real, w: Weights, p: Path, e: Edge): real
    requires Scorable(g) && IsWalk(g, p) && NodesIn(g, p)
  {
    var c := PathScore(g, negLog, p, w);
    if c == 0.0 then 0.0 else DepositedOn(p, e, LinkCount(p), 1.0 / c)
  }

  /** Pheromone the successful ants `found[lo..hi]` lay under key `e`, one after another. */
  ghost function AntsDeposited(g: Graph, negLog: real -> real, w: Weights, s: Node, d: Node,
                               found: seq<Path>, lo: nat, hi: nat, e: Edge): real
    requires Scorable(g) && AllSimple(g, found, s, d) && lo <= hi <= |found|
    decreases hi - lo
  {
    if hi == lo then 0.0
    else AntsDeposited(g, negLog, w, s, d, found, lo, hi - 1, e) + AntDeposit(g, negLog, w, found[hi - 1], e)
  }

  /** `tau` is `base` with the deposits of the successful ants `found[lo..hi]` added. */
  ghost predicate DepositedFrom(g: Graph, negLog: real -> real, w: Weights, s: Node, d: Node,
                                base: map<Edge, real>, found: seq<Path>, lo: nat, hi: nat, tau: map<Edge, real>)
    requires Scorable(g) && AllSimple(g, found, s, d) && lo <= hi <= |found|
  {
    tau.Keys == base.Keys && forall e :: e in tau ==> tau[e] == base[e] + AntsDeposited(g, negLog, w, s, d, found, lo, hi, e)
  }

  /** The deposits of `found[lo..hi]` depend only on those paths. */
  lemma {:induction false} DepositsOfPrefix(g: Graph, negLog: real -> real, w: Weights, s: Node, d: Node,
                                            prev: seq<Path>, found: seq<Path>, lo: nat, hi: nat, e: Edge)
    requires Scorable(g) && AllSimple(g, found, s, d) && AllSimple(g, prev, s, d) && prev <= found && lo <= hi <= |prev|
    ensures AntsDeposited(g, negLog, w, s, d, found, lo, hi, e) == AntsDeposited(g, negLog, w, s, d, prev, lo, hi, e)
    decreases hi - lo
  {
    if hi > lo {
      DepositsOfPrefix(g, negLog, w, s, d, prev, found, lo, hi - 1, e);
      assert found[hi - 1] == prev[hi - 1];
    }
  }

  /** With positive costs every ant deposits a non-negative amount on every key. */
  lemma {:induction false} AntsDepositedNonNeg(g: Graph, negLog: real -> real, w: Weights, s: Node, d: Node,
                                               found: seq<Path>, lo: nat, hi: nat, e: Edge)
    requires Scorable(g) && AllSimple(g, found, s, d) && lo <= hi <= |found| && AllPositive(g, negLog, w, s, d, found)
    ensures AntsDeposited(g, negLog, w, s, d, found, lo, hi, e) >= 0.0
    decreases hi - lo
  {
    if hi > lo {
      AntsDepositedNonNeg(g, negLog, w, s, d, found, lo, hi - 1, e);
      var p := found[hi - 1];
      PositiveQuotient(1.0, PathScore(g, negLog, p, w));
      DepositedOnNonNeg(p, e, LinkCount(p), 1.0 / PathScore(g, negLog, p, w));
    }
  }

  /** Deposits with positive costs never lower an entry. */
  lemma DepositedFromGrows(g: Graph, negLog: real -> real, w: Weights, s: Node, d: Node,
                           base: map<Edge, real>, found: seq<Path>, lo: nat, hi: nat, tau: map<Edge, real>)
    requires Scorable(g) && AllSimple(g, found, s, d) && lo <= hi <= |found| && AllPositive(g, negLog, w, s, d, found)
    requires DepositedFrom(g, negLog, w, s, d, base, found, lo, hi, tau)
    ensures Le(base, tau)
  {
    forall e | e in base ensures base[e] <= tau[e] {
      AntsDepositedNonNeg(g, negLog, w, s, d, found, lo, hi, e);
    }
  }

  /** The paths a wave of `ants` ants has found, appended to `found0`: at most one per ant,
      all simple from `s` to `d`, every ant succeeding when `s == d`, and an ant finding none
      only where the graph has a dead end. */
  ghost predicate WaveFound(g: Graph, s: Node, d: Node, found0: seq<Path>, found: seq<Path>, ants: nat) {
    && found0 <= found && AllSimple(g, found, s, d)
    && |found| <= |found0| + ants
    && (|found| < |found0| + ants ==> exists walk :: DeadEnd(g, walk, s, d))
    && (s == d ==> |found| == |found0| + ants)
  }

  /** One more ant, as `RunAnt` describes it, extends the paths of the wave. */
  lemma FoundStep(g: Graph, s: Node, d: Node, found0: seq<Path>, prev: seq<Path>, found: seq<Path>, ants: nat)
    requires WaveFound(g, s, d, found0, prev, ants)
    requires prev <= found && |found| <= |prev| + 1 && AllSimple(g, found, s, d)
    requires |found| == |prev| ==> exists walk :: DeadEnd(g, walk, s, d)
    requires s == d ==> |found| == |prev| + 1
    ensures WaveFound(g, s, d, found0, found, ants + 1)
  {
  }

  /** One more ant, as `RunAnt` describes it, adds its deposit to those of the wave. */
  lemma DepositStep(g: Graph, negLog: real -> real, w: Weights, s: Node, d: Node, base: map<Edge, real>,
                    found0: seq<Path>, prev: seq<Path>, found: seq<Path>, before: map<Edge, real>, after: map<Edge, real>)
    requires Scorable(g) && AllSimple(g, prev, s, d) && AllSimple(g, found, s, d)
    requires found0 <= prev <= found && |found| <= |prev| + 1
    requires DepositedFrom(g, negLog, w, s, d, base, prev, |found0|, |prev|, before)
    requires |found| == |prev| ==> after == before
    requires |found| == |prev| + 1 ==>
               after.Keys == before.Keys && forall e :: e in after ==> after[e] == before[e] + AntDeposit(g, negLog, w, found[|prev|], e)
    ensures DepositedFrom(g, negLog, w, s, d, base, found, |found0|, |found|, after)
  {
    if |found| == |prev| {
      assert found == prev;
    } else {
      forall e | e in after
        ensures after[e] == base[e] + AntsDeposited(g, negLog, w, s, d, found, |found0|, |found|, e)
      {
        DepositsOfPrefix(g, negLog, w, s, d, prev, found, |found0|, |prev|, e);
      }
    }
  }

  /** How a wave ends in the division error: the last path found has cost zero, and `tau` is
      `base` with the deposits of the paths before it. */
  ghost predicate WaveRaised(g: Graph, negLog: real -> real, w: Weights, s: Node, d: Node, base: map<Edge, real>,
                             found0: seq<Path>, found: seq<Path>, tau: map<Edge, real>)
    requires Scorable(g) && AllSimple(g, found, s, d)
  {
    && |found0| < |found|
    && PathScore(g, negLog, found[|found| - 1], w) == 0.0
    && DepositedFrom(g, negLog, w, s, d, base, found, |found0|, |found| - 1, tau)
  }

  /** An ant whose deposit raised appended its path, and left the deposits of the ants before it. */
  lemma WaveStopped(g: Graph, negLog: real -> real, w: Weights, s: Node, d: Node, base: map<Edge, real>,
                    found0: seq<Path>, prev: seq<Path>, found: seq<Path>, tau: map<Edge, real>)
    requires Scorable(g) && AllSimple(g, prev, s, d) && AllSimple(g, found, s, d)
    requires found0 <= prev <= found && |found| == |prev| + 1 && PathScore(g, negLog, found[|found| - 1], w) == 0.0
    requires DepositedFrom(g, negLog, w, s, d, base, prev, |found0|, |prev|, tau)
    ensures WaveRaised(g, negLog, w, s, d, base, found0, found, tau)
  {
    forall e | e in tau
      ensures tau[e] == base[e] + AntsDeposited(g, negLog, w, s, d, found, |found0|, |found| - 1, e)
    {
      DepositsOfPrefix(g, negLog, w, s, d, prev, found, |found0|, |prev|, e);
    }
  }

  /** One ant of a wave: if it reaches `d`, its path is appended to `found`, may become the
      new best, and deposits Q = 1 over its cost; a zero cost raises. An ant that finds no
      path has met a dead end, and leaves the table as it was. */
  method RunAnt(g: Graph, negLog: real -> real, pow: (real, real) -> real, s: Node, d: Node, w: Weights,
                h: map<Edge, real>, table: PheromoneTable, alpha: real, beta: real,
                ghost found0: seq<Path>, best0: Best)
    returns (r: Result<Best>, ghost found: seq<Path>)
    requires Valid(g) && Scorable(g) && HasNode(g, s)
    requires table.tau.Keys == g.edges.Keys && h.Keys == g.edges.Keys
    requires AllSimple(g, found0, s, d) && IsBestOf(g, negLog, w, s, d, found0, best0)
    modifies table
    ensures table.tau.Keys == g.edges.Keys
    ensures found0 <= found && |found| <= |found0| + 1
    ensures AllSimple(g, found, s, d)
    ensures r.Ok? ==> IsBestOf(g, negLog, w, s, d, found, r.value) && (AllNonZero(g, negLog, w, s, d, found0) ==> AllNonZero(g, negLog, w, s, d, found))
    ensures r.Err? ==> r.error == ZeroDivision && |found| == |found0| + 1 && PathScore(g, negLog, found[|found| - 1], w) == 0.0
    ensures |found| == |found0| ==> exists walk :: DeadEnd(g, walk, s, d)
    ensures s == d ==> |found| == |found0| + 1
    ensures r.Err? || |found| == |found0| ==> table.tau == old(table.tau)
    ensures r.Ok? && |found| == |found0| + 1 ==>
              forall e :: e in table.tau ==> table.tau[e] == old(table.tau)[e] + AntDeposit(g, negLog, w, found[|found0|], e)
    ensures AllPositive(g, negLog, w, s, d, found) ==> Le(old(table.tau), table.tau)
  {
    found := found0;
    var path := BuildPath(g, table.tau, s, d, h, alpha, beta, pow);
    if path.None? {
      return Ok(best0), found;
    }
    var p := path.value;
    ScorableWalkMetricsDefined(g, p);
    var (cost, td, rc, rs) := EvaluatePath(p, g, negLog, w);
    assert cost == PathScore(g, negLog, p, w);
    Appended(g, negLog, w, s, d, found, p);
    NewBest(g, negLog, w, s, d, found, best0, p);
    found := found + [p];
    var best := best0;
    if Below(cost, best.cost) {
      best := Best(Some(p), Finite(cost), Some((td, rc, rs)));
    }
    if cost == 0.0 {
      return Err(ZeroDivision), found;
    }
    WalkCovered(g, table.tau, p);
    table.Deposit(p, cost, 1.0);
    if AllPositive(g, negLog, w, s, d, found) {
      PositiveQuotient(1.0, cost);
    }
    r := Ok(best);
  }

  /** One wave of ants over the current table. */
  method AntWave(g: Graph, negLog: real -> real, pow: (real, real) -> real, s: Node, d: Node, w: Weights,
                 h: map<Edge, real>, table: PheromoneTable, nAnts: nat, alpha: real, beta: real,
                 ghost found0: seq<Path>, best0: Best)
    returns (r: Result<Best>, ghost found: seq<Path>)
    requires Valid(g) && Scorable(g) && HasNode(g, s)
    requires table.tau.Keys == g.edges.Keys && h.Keys == g.edges.Keys
    requires AllSimple(g, found0, s, d) && IsBestOf(g, negLog, w, s, d, found0, best0)
    modifies table
    ensures table.tau.Keys == g.edges.Keys
    ensures found0 <= found && AllSimple(g, found, s, d)
    ensures r.Ok? ==> IsBestOf(g, negLog, w, s, d, found, r.value) && (AllNonZero(g, negLog, w, s, d, found0) ==> AllNonZero(g, negLog, w, s, d, found))
    ensures r.Err? ==> r.error == ZeroDivision && WaveRaised(g, negLog, w, s, d, old(table.tau), found0, found, table.tau)
    ensures |found| <= |found0| + nAnts
    ensures r.Ok? && |found| < |found0| + nAnts ==> exists walk :: DeadEnd(g, walk, s, d)
    ensures r.Ok? && s == d ==> |found| == |found0| + nAnts
    ensures r.Ok? ==> DepositedFrom(g, negLog, w, s, d, old(table.tau), found, |found0|, |found|, table.tau)
    ensures AllPositive(g, negLog, w, s, d, found) ==> Le(old(table.tau), table.tau)
  {
    found := found0;
    var best := best0;
    for ant := 0 to nAnts
      invariant table.tau.Keys == g.edges.Keys
      invariant WaveFound(g, s, d, found0, found, ant)
      invariant DepositedFrom(g, negLog, w, s, d, old(table.tau), found, |found0|, |found|, table.tau)
      invariant IsBestOf(g, negLog, w, s, d, found, best)
      invariant AllNonZero(g, negLog, w, s, d, found0) ==> AllNonZero(g, negLog, w, s, d, found)
    {
      ghost var prev := found;
      ghost var before := table.tau;
      var step;
      step, found := RunAnt(g, negLog, pow, s, d, w, h, table, alpha, beta, found, best);
      if step.Err? {
        WaveStopped(g, negLog, w, s, d, old(table.tau), found0, prev, found, table.tau);
        r := step;
        return;
      }
      FoundStep(g, s, d, found0, prev, found, ant);
      DepositStep(g, negLog, w, s, d, old(table.tau), found0, prev, found, before, table.tau);
      best := step.value;
    }
    if AllPositive(g, negLog, w, s, d, found) {
      DepositedFromGrows(g, negLog, w, s, d, old(table.tau), found, |found0|, |found|, table.tau);
    }
    r := Ok(best);
  }

  /** Appending a path keeps the best record right under `cost < best_cost`. */
  lemma NewBest(g: Graph, negLog: real -> real, w: Weights, s: Node, d: Node, found: seq<Path>, best: Best, p: Path)
    requires Scorable(g) && AllSimple(g, found, s, d) && IsBestOf(g, negLog, w, s, d, found, best)
    requires SimplePath(g, p, s, d)
    ensures AllSimple(g, found + [p], s, d)
    ensures var c := PathScore(g, negLog, p, w);
            IsBestOf(g, negLog, w, s, d, found + [p],
                     if Below(c, best.cost) then Best(Some(p), Finite(c), Some(MetricsOf(g, negLog, p))) else best)
  {
    var f := found + [p];
    assert forall i :: 0 <= i < |found| ==> f[i] == found[i];
    assert f[|found|] == p;
    var c := PathScore(g, negLog, p, w);
    if found == [] {
      assert IsBestAt(g, negLog, w, s, d, f, Best(Some(p), Finite(c), Some(MetricsOf(g, negLog, p))), 0);
    } else {
      var i :| IsBestAt(g, negLog, w, s, d, found, best, i);
      if Below(c, best.cost) {
        assert IsBestAt(g, negLog, w, s, d, f, Best(Some(p), Finite(c), Some(MetricsOf(g, negLog, p))), |found|);
      } else {
        assert IsBestAt(g, negLog, w, s, d, f, best, i);
      }
    }
  }

  /** Consecutive tables never decrease. */
  ghost predicate NonDecreasing(history: seq<map<Edge, real>>) {
    forall i :: 0 <= i < |history| - 1 ==> Le(history[i], history[i + 1])
  }

  lemma NonDecreasingAppend(history: seq<map<Edge, real>>, m: map<Edge, real>)
    requires |history| >= 1 && NonDecreasing(history) && Le(history[|history| - 1], m)
    ensures NonDecreasing(history + [m])
  {
    var hs := history + [m];
    forall i | 0 <= i < |hs| - 1 ensures Le(hs[i], hs[i + 1]) {
      if i < |history| - 1 {
        assert hs[i] == history[i] && hs[i + 1] == history[i + 1];
      }
    }
  }

  /** What the best record says about its path: a walk of the graph whose cost is finite and
      non-zero, and positive when every cost found is. */
  lemma BestFacts(g: Graph, negLog: real -> real, w: Weights, s: Node, d: Node, found: seq<Path>, best: Best)
    requires Scorable(g) && AllSimple(g, found, s, d) && IsBestOf(g, negLog, w, s, d, found, best)
    requires AllNonZero(g, negLog, w, s, d, found)
    ensures best.path.Some? ==> IsWalk(g, best.path.value) && best.cost.Finite? && best.cost.value != 0.0
    ensures best.path.Some? && AllPositive(g, negLog, w, s, d, found) ==> best.cost.value > 0.0
  {
    if best.path.Some? {
      var i :| IsBestAt(g, negLog, w, s, d, found, best, i);
    }
  }

  /** The end of an iteration: the best path so far deposits Q = 2 over its cost, then every
      entry evaporates by the factor 1 - rho. */
  method Reinforce(table: PheromoneTable, best: Best, rho: real) returns (ghost elite: map<Edge, real>)
    requires best.path.Some? ==> Covers(table.tau, best.path.value) && best.cost.Finite? && best.cost.value != 0.0
    modifies table
    ensures elite.Keys == old(table.tau).Keys && table.tau.Keys == old(table.tau).Keys
    ensures forall e :: e in elite ==> elite[e] == old(table.tau)[e] + ElitistDeposit(best, e)
    ensures forall e :: e in table.tau ==> table.tau[e] == elite[e] * (1.0 - rho)
    ensures rho == 0.0 && (best.path.Some? ==> best.cost.value > 0.0) ==> Le(old(table.tau), table.tau)
  {
    DepositBest(table, best);
    elite := table.tau;
    table.Evaporate(rho);
    if rho == 0.0 && (best.path.Some? ==> best.cost.value > 0.0) {
      NoEvaporation(elite, table.tau, rho);
      LeTrans(old(table.tau), elite, table.tau);
    }
  }

  /** The elitist deposit alone: Q = 2 over the best cost on each link of the best path, and
      nothing when there is no best path. */
  method DepositBest(table: PheromoneTable, best: Best)
    requires best.path.Some? ==> Covers(table.tau, best.path.value) && best.cost.Finite? && best.cost.value != 0.0
    modifies table
    ensures table.tau.Keys == old(table.tau).Keys
    ensures forall e :: e in table.tau ==> table.tau[e] == old(table.tau)[e] + ElitistDeposit(best, e)
    ensures (best.path.Some? ==> best.cost.value > 0.0) ==> Le(old(table.tau), table.tau)
  {
    if best.path.Some? {
      table.Deposit(best.path.value, best.cost.value, 2.0);
      if best.cost.value > 0.0 {
        PositiveQuotient(2.0, best.cost.value);
      }
    }
  }

  /** With rho = 0 evaporation changes nothing. */
  lemma NoEvaporation(a: map<Edge, real>, b: map<Edge, real>, rho: real)
    requires rho == 0.0 && a.Keys == b.Keys
    requires forall e :: e in b ==> b[e] == a[e] * (1.0 - rho)
    ensures Le(a, b)
  {
  }

  /** What the elitist deposit adds under key `e`: Q = 2 over the best cost on each link of the best path. */
  function ElitistDeposit(best: Best, e: Edge): real {
    if best.path.Some? && best.cost.Finite? && best.cost.value != 0.0
    then DepositedOn(best.path.value, e, LinkCount(best.path.value), 2.0 / best.cost.value)
    else 0.0
  }

  /** The table after one iteration: to each entry of `before`, the ants `found[lo..hi]` add
      their deposits and the best record its elitist deposit, and the sum evaporates by 1 - rho. */
  ghost predicate IterationUpdate(g: Graph, negLog: real -> real, w: Weights, s: Node, d: Node, found: seq<Path>, lo: nat, hi: nat,
                                  before: map<Edge, real>, best: Best, rho: real, after: map<Edge, real>)
    requires Scorable(g) && AllSimple(g, found, s, d) && lo <= hi <= |found|
  {
    && after.Keys == before.Keys
    && forall e :: e in after ==>
         after[e] == Evaporated(before[e] + AntsDeposited(g, negLog, w, s, d, found, lo, hi, e) + ElitistDeposit(best, e), rho)
  }

  /** An amount of pheromone after evaporation by the factor 1 - rho. */
  function Evaporated(x: real, rho: real): real {
    x * (1.0 - rho)
  }

  /** The ants' deposits, then `Reinforce`, make one iteration's update. */
  lemma IterationComposed(g: Graph, negLog: real -> real, w: Weights, s: Node, d: Node, found: seq<Path>, lo: nat, hi: nat,
                          before: map<Edge, real>, afterAnts: map<Edge, real>, elite: map<Edge, real>, best: Best, rho: real,
                          after: map<Edge, real>)
    requires Scorable(g) && AllSimple(g, found, s, d) && lo <= hi <= |found|
    requires DepositedFrom(g, negLog, w, s, d, before, found, lo, hi, afterAnts)
    requires elite.Keys == afterAnts.Keys && after.Keys == afterAnts.Keys
    requires forall e :: e in elite ==> elite[e] == afterAnts[e] + ElitistDeposit(best, e)
    requires forall e :: e in after ==> after[e] == elite[e] * (1.0 - rho)
    ensures IterationUpdate(g, negLog, w, s, d, found, lo, hi, before, best, rho, after)
  {
  }

  /** One iteration of `ACO`: a wave of ants, then the elitist deposit and evaporation. */
  method Iteration(g: Graph, negLog: real -> real, pow: (real, real) -> real, s: Node, d: Node, w: Weights,
                   h: map<Edge, real>, table: PheromoneTable, nAnts: nat, alpha: real, beta: real, rho: real,
                   ghost found0: seq<Path>, best0: Best)
    returns (r: Result<Best>, ghost found: seq<Path>)
    requires Valid(g) && Scorable(g) && HasNode(g, s)
    requires table.tau.Keys == g.edges.Keys && h.Keys == g.edges.Keys
    requires AllSimple(g, found0, s, d) && IsBestOf(g, negLog, w, s, d, found0, best0) && AllNonZero(g, negLog, w, s, d, found0)
    modifies table
    ensures table.tau.Keys == g.edges.Keys
    ensures found0 <= found && AllSimple(g, found, s, d) && |found| <= |found0| + nAnts
    ensures r.Ok? ==> IsBestOf(g, negLog, w, s, d, found, r.value) && AllNonZero(g, negLog, w, s, d, found)
    ensures r.Ok? && |found| < |found0| + nAnts ==> exists walk :: DeadEnd(g, walk, s, d)
    ensures r.Ok? && s == d ==> |found| == |found0| + nAnts
    ensures r.Ok? ==> IterationUpdate(g, negLog, w, s, d, found, |found0|, |found|, old(table.tau), r.value, rho, table.tau)
    ensures r.Err? ==> r.error == ZeroDivision && WaveRaised(g, negLog, w, s, d, old(table.tau), found0, found, table.tau)
    ensures r.Ok? && rho == 0.0 && AllPositive(g, negLog, w, s, d, found) ==> Le(old(table.tau), table.tau)
  {
    var wave;
    wave, found := AntWave(g, negLog, pow, s, d, w, h, table, nAnts, alpha, beta, found0, best0);
    if wave.Err? {
      return Err(ZeroDivision), found;
    }
    var best := wave.value;
    ghost var afterAnts := table.tau;
    BestFacts(g, negLog, w, s, d, found, best);
    if best.path.Some? {
      WalkCovered(g, table.tau, best.path.value);
    }
    ghost var elite := Reinforce(table, best, rho);
    IterationComposed(g, negLog, w, s, d, found, |found0|, |found|, old(table.tau), afterAnts, elite, best, rho, table.tau);
    if rho == 0.0 && AllPositive(g, negLog, w, s, d, found) {
      LeTrans(old(table.tau), afterAnts, table.tau);
    }
    r := Ok(best);
  }

  /** `b` is the best record after the first `k` paths found. */
  ghost predicate BestOfPrefix(g: Graph, negLog: real -> real, w: Weights, s: Node, d: Node, found: seq<Path>, k: nat, b: Best)
    requires Scorable(g) && AllSimple(g, found, s, d) && k <= |found|
  {
    AllSimple(g, found[..k], s, d) && IsBestOf(g, negLog, w, s, d, found[..k], b)
  }

  /** The course of an `ACO` run: before iteration i the ants had found `found[..marks[i]]`,
      and iteration i turned the table `history[i]` into `history[i + 1]` with the deposits of
      the paths `found[marks[i]..marks[i + 1]]` and the elitist deposit of `bests[i]`, the best
      record after it. */
  ghost predicate Recorded(g: Graph, negLog: real -> real, w: Weights, s: Node, d: Node, found: seq<Path>,
                           marks: seq<nat>, history: seq<map<Edge, real>>, bests: seq<Best>, rho: real)
    requires Scorable(g) && AllSimple(g, found, s, d)
  {
    && |marks| == |history| == |bests| + 1
    && marks[0] == 0 && marks[|bests|] == |found|
    && (forall i :: 0 <= i < |marks| ==> marks[i] <= |found|)
    && (forall i, j :: 0 <= i <= j < |marks| ==> marks[i] <= marks[j])
    && (forall i :: 0 <= i < |bests| ==>
          IterationUpdate(g, negLog, w, s, d, found, marks[i], marks[i + 1], history[i], bests[i], rho, history[i + 1]))
    && (forall i :: 0 <= i < |bests| ==> BestOfPrefix(g, negLog, w, s, d, found, marks[i + 1], bests[i]))
  }

  /** An iteration's update depends only on the paths it covers. */
  lemma UpdateOfPrefix(g: Graph, negLog: real -> real, w: Weights, s: Node, d: Node, prev: seq<Path>, found: seq<Path>,
                       lo: nat, hi: nat, before: map<Edge, real>, best: Best, rho: real, after: map<Edge, real>)
    requires Scorable(g) && AllSimple(g, prev, s, d) && AllSimple(g, found, s, d) && prev <= found && lo <= hi <= |prev|
    requires IterationUpdate(g, negLog, w, s, d, prev, lo, hi, before, best, rho, after)
    ensures IterationUpdate(g, negLog, w, s, d, found, lo, hi, before, best, rho, after)
  {
    forall e | e in after
      ensures after[e] == Evaporated(before[e] + AntsDeposited(g, negLog, w, s, d, found, lo, hi, e) + ElitistDeposit(best, e), rho)
    {
      DepositsOfPrefix(g, negLog, w, s, d, prev, found, lo, hi, e);
    }
  }

  /** One more iteration extends the course of the run. */
  lemma RecordedExtend(g: Graph, negLog: real -> real, w: Weights, s: Node, d: Node, prev: seq<Path>, found: seq<Path>,
                       marks: seq<nat>, history: seq<map<Edge, real>>, bests: seq<Best>, rho: real, tau: map<Edge, real>, best: Best)
    requires Scorable(g) && AllSimple(g, prev, s, d) && AllSimple(g, found, s, d) && prev <= found
    requires Recorded(g, negLog, w, s, d, prev, marks, history, bests, rho)
    requires IterationUpdate(g, negLog, w, s, d, found, |prev|, |found|, history[|history| - 1], best, rho, tau)
    requires IsBestOf(g, negLog, w, s, d, found, best)
    ensures Recorded(g, negLog, w, s, d, found, marks + [|found|], history + [tau], bests + [best], rho)
  {
    var marks', history', bests' := marks + [|found|], history + [tau], bests + [best];
    assert forall i :: 0 <= i < |marks| ==> marks'[i] == marks[i];
    forall i | 0 <= i < |bests'|
      ensures IterationUpdate(g, negLog, w, s, d, found, marks'[i], marks'[i + 1], history'[i], bests'[i], rho, history'[i + 1])
      ensures BestOfPrefix(g, negLog, w, s, d, found, marks'[i + 1], bests'[i])
    {
      if i < |bests| {
        UpdateOfPrefix(g, negLog, w, s, d, prev, found, marks[i], marks[i + 1], history[i], bests[i], rho, history[i + 1]);
        assert found[..marks[i + 1]] == prev[..marks[i + 1]];
      } else {
        assert found[..|found|] == found;
      }
    }
  }

  /** Without evaporation and with positive costs, no iteration of a run lowers an entry. */
  lemma RecordedNonDecreasing(g: Graph, negLog: real -> real, w: Weights, s: Node, d: Node, found: seq<Path>,
                              marks: seq<nat>, history: seq<map<Edge, real>>, bests: seq<Best>)
    requires Scorable(g) && AllSimple(g, found, s, d) && AllPositive(g, negLog, w, s, d, found)
    requires Recorded(g, negLog, w, s, d, found, marks, history, bests, 0.0)
    ensures NonDecreasing(history)
  {
    forall i | 0 <= i < |history| - 1 ensures Le(history[i], history[i + 1]) {
      assert marks[i] <= marks[i + 1];
      assert IterationUpdate(g, negLog, w, s, d, found, marks[i], marks[i + 1], history[i], bests[i], 0.0, history[i + 1]);
      BestOfPrefixPositive(g, negLog, w, s, d, found, marks[i + 1], bests[i]);
      forall e | e in history[i + 1] ensures history[i][e] <= history[i + 1][e] {
        AntsDepositedNonNeg(g, negLog, w, s, d, found, marks[i], marks[i + 1], e);
        ElitistDepositNonNeg(bests[i], e);
      }
    }
  }

  /** A best record among paths of positive cost has a positive cost. */
  lemma BestOfPrefixPositive(g: Graph, negLog: real -> real, w: Weights, s: Node, d: Node, found: seq<Path>, k: nat, b: Best)
    requires Scorable(g) && AllSimple(g, found, s, d) && AllPositive(g, negLog, w, s, d, found) && k <= |found|
    requires BestOfPrefix(g, negLog, w, s, d, found, k, b)
    ensures b.path.Some? ==> b.cost.Finite? && b.cost.value > 0.0
  {
    if b.path.Some? {
      var j :| IsBestAt(g, negLog, w, s, d, found[..k], b, j);
      assert found[..k][j] == found[j];
    }
  }

  /** The elitist deposit of a record with a positive cost adds nothing negative. */
  lemma ElitistDepositNonNeg(best: Best, e: Edge)
    requires best.path.Some? ==> best.cost.Finite? && best.cost.value > 0.0
    ensures ElitistDeposit(best, e) >= 0.0
  {
    if best.path.Some? {
      PositiveQuotient(2.0, best.cost.value);
      DepositedOnNonNeg(best.path.value, e, LinkCount(best.path.value), 2.0 / best.cost.value);
    }
  }

  /** One more iteration of `nAnts` ants extends the paths found by a run. */
  lemma FoundIteration(g: Graph, s: Node, d: Node, prev: seq<Path>, found: seq<Path>, nAnts: nat, iterations: nat)
    requires WaveFound(g, s, d, [], prev, nAnts * iterations)
    requires prev <= found && AllSimple(g, found, s, d) && |found| <= |prev| + nAnts
    requires |found| < |prev| + nAnts ==> exists walk :: DeadEnd(g, walk, s, d)
    requires s == d ==> |found| == |prev| + nAnts
    ensures WaveFound(g, s, d, [], found, nAnts * (iterations + 1))
  {
    assert nAnts * (iterations + 1) == nAnts * iterations + nAnts;
  }

  /** The state of an `ACO` run after `iterations` iterations of `nAnts` ants: the paths
      found, the best record among them, the tables after each iteration (the last being
      `tau`), and the course of the run that links them. */
  ghost predicate RunSoFar(g: Graph, negLog: real -> real, w: Weights, s: Node, d: Node, nAnts: nat, rho: real,
                           found: seq<Path>, best: Best, history: seq<map<Edge, real>>, marks: seq<nat>, bests: seq<Best>,
                           tau: map<Edge, real>, iterations: nat)
    requires Scorable(g)
  {
    && AllSimple(g, found, s, d) && IsBestOf(g, negLog, w, s, d, found, best) && AllNonZero(g, negLog, w, s, d, found)
    && WaveFound(g, s, d, [], found, nAnts * iterations)
    && |history| == iterations + 1 && history[iterations] == tau
    && (forall i :: 0 <= i < |history| ==> history[i].Keys == g.edges.Keys)
    && Recorded(g, negLog, w, s, d, found, marks, history, bests, rho) && |bests| == iterations
    && (iterations > 0 ==> best == bests[iterations - 1])
  }

  /** One iteration, as `Iteration` describes it, extends the state of the run. */
  lemma RunStep(g: Graph, negLog: real -> real, w: Weights, s: Node, d: Node, nAnts: nat, rho: real,
                prev: seq<Path>, best0: Best, history: seq<map<Edge, real>>, marks: seq<nat>, bests: seq<Best>,
                before: map<Edge, real>, iterations: nat, found: seq<Path>, best: Best, tau: map<Edge, real>)
    requires Scorable(g) && RunSoFar(g, negLog, w, s, d, nAnts, rho, prev, best0, history, marks, bests, before, iterations)
    requires prev <= found && AllSimple(g, found, s, d) && |found| <= |prev| + nAnts
    requires IsBestOf(g, negLog, w, s, d, found, best) && AllNonZero(g, negLog, w, s, d, found)
    requires |found| < |prev| + nAnts ==> exists walk :: DeadEnd(g, walk, s, d)
    requires s == d ==> |found| == |prev| + nAnts
    requires IterationUpdate(g, negLog, w, s, d, found, |prev|, |found|, before, best, rho, tau)
    ensures RunSoFar(g, negLog, w, s, d, nAnts, rho, found, best, history + [tau], marks + [|found|], bests + [best], tau, iterations + 1)
  {
    FoundIteration(g, s, d, prev, found, nAnts, iterations);
    RecordedExtend(g, negLog, w, s, d, prev, found, marks, history, bests, rho, tau, best);
    var history' := history + [tau];
    forall i | 0 <= i < |history'| ensures history'[i].Keys == g.edges.Keys {
      if i < |history| {
        assert history'[i] == history[i];
      }
    }
  }

  /** One iteration of a run, together with what it adds to the state of the run. */
  method RecordedIteration(g: Graph, negLog: real -> real, pow: (real, real) -> real, s: Node, d: Node, w: Weights,
                           h: map<Edge, real>, table: PheromoneTable, nAnts: nat, alpha: real, beta: real, rho: real,
                           ghost found0: seq<Path>, best0: Best, ghost history0: seq<map<Edge, real>>,
                           ghost marks0: seq<nat>, ghost bests0: seq<Best>, ghost iterations: nat)
    returns (r: Result<Best>, ghost found: seq<Path>, ghost history: seq<map<Edge, real>>,
             ghost marks: seq<nat>, ghost bests: seq<Best>)
    requires Valid(g) && Scorable(g) && HasNode(g, s)
    requires table.tau.Keys == g.edges.Keys && h.Keys == g.edges.Keys
    requires RunSoFar(g, negLog, w, s, d, nAnts, rho, found0, best0, history0, marks0, bests0, table.tau, iterations)
    modifies table
    ensures table.tau.Keys == g.edges.Keys && history0 <= history
    ensures r.Ok? ==> RunSoFar(g, negLog, w, s, d, nAnts, rho, found, r.value, history, marks, bests, table.tau, iterations + 1)
    ensures r.Err? ==> r.error == ZeroDivision && AllSimple(g, found, s, d) && EndsAtZeroCost(g, negLog, w, s, d, found)
  {
    var step;
    step, found := Iteration(g, negLog, pow, s, d, w, h, table, nAnts, alpha, beta, rho, found0, best0);
    history, marks, bests := history0, marks0, bests0;
    if step.Err? {
      return step, found, history, marks, bests;
    }
    PrefixKeeps(g, negLog, w, s, d, found0, found);
    RunStep(g, negLog, w, s, d, nAnts, rho, found0, best0, history0, marks0, bests0, old(table.tau), iterations,
            found, step.value, table.tau);
    r := step;
    history, marks, bests := history0 + [table.tau], marks0 + [|found|], bests0 + [step.value];
  }

  /** The last path found has cost zero: its deposit divides by zero. */
  ghost predicate EndsAtZeroCost(g: Graph, negLog: real -> real, w: Weights, s: Node, d: Node, found: seq<Path>)
    requires Scorable(g) && AllSimple(g, found, s, d)
  {
    |found| > 0 && PathScore(g, negLog, found[|found| - 1], w) == 0.0
  }

  /** The whole solver. On success the result is the first cheapest path any ant found (or
      nothing, at infinite cost, when no ant reached `d`), with its metrics. At most one path
      per ant is found, and fewer only where the graph has a dead end. A zero-cost path raises
      in the deposit. `history` holds the table after initialisation and after each
      iteration, each following from the one before by the deposits of that iteration's ants,
      the elitist deposit and evaporation; without evaporation and with positive costs no
      entry ever decreases. */
  method Aco(g: Graph, negLog: real -> real, pow: (real, real) -> real, s: Node, d: Node, w: Weights,
             nAnts: nat, nIter: nat, alpha: real, beta: real, rho: real)
    returns (r: Result<Best>, ghost found: seq<Path>, ghost history: seq<map<Edge, real>>,
             ghost marks: seq<nat>, ghost bests: seq<Best>)
    requires Valid(g) && Scorable(g) && HasNode(g, s)
    ensures AllSimple(g, found, s, d)
    ensures r.Ok? ==> IsBestOf(g, negLog, w, s, d, found, r.value) && |history| == nIter + 1
    ensures r.Ok? && r.value.path.Some? ==>
              var p := r.value.path.value;
              && SimplePath(g, p, s, d)
              && r.value.cost == Finite(PathScore(g, negLog, p, w))
              && r.value.metrics == Some(MetricsOf(g, negLog, p))
    ensures r.Ok? && r.value.path.None? ==> r.value == Best(None, Infinite, None)
    ensures r.Ok? ==> WaveFound(g, s, d, [], found, nAnts * nIter)
    ensures r.Ok? && r.value.path.None? ==> nAnts == 0 || nIter == 0 || exists walk :: DeadEnd(g, walk, s, d)
    ensures r.Ok? ==> Recorded(g, negLog, w, s, d, found, marks, history, bests, rho) && |bests| == nIter
    ensures r.Ok? && nIter > 0 ==> r.value == bests[nIter - 1]
    ensures r.Err? ==> r.error == ZeroDivision && EndsAtZeroCost(g, negLog, w, s, d, found)
    ensures |history| >= 1 && forall e :: e in history[0] ==> history[0][e] == InitialPheromone
    ensures forall i :: 0 <= i < |history| ==> history[i].Keys == g.edges.Keys
    ensures r.Ok? && rho == 0.0 && AllPositive(g, negLog, w, s, d, found) ==> NonDecreasing(history)
  {
    var h := BuildHeuristicMap(g, negLog, w);
    var tau0 := InitializePheromones(g, InitialPheromone);
    var table := new PheromoneTable(tau0);
    r, found, history, marks, bests := Iterations(g, negLog, pow, s, d, w, h, table, nAnts, nIter, alpha, beta, rho);
    if r.Ok? {
      RunDone(g, negLog, w, s, d, nAnts, nIter, rho, found, r.value, history, marks, bests, table.tau);
    }
  }

  /** The iteration loop of `ACO`, from a fresh table: `nIter` recorded iterations, or the
      error of the first iteration whose deposit divides by zero. */
  method Iterations(g: Graph, negLog: real -> real, pow: (real, real) -> real, s: Node, d: Node, w: Weights,
                    h: map<Edge, real>, table: PheromoneTable, nAnts: nat, nIter: nat, alpha: real, beta: real, rho: real)
    returns (r: Result<Best>, ghost found: seq<Path>, ghost history: seq<map<Edge, real>>,
             ghost marks: seq<nat>, ghost bests: seq<Best>)
    requires Valid(g) && Scorable(g) && HasNode(g, s)
    requires h.Keys == g.edges.Keys && table.tau.Keys == g.edges.Keys
    modifies table
    ensures AllSimple(g, found, s, d)
    ensures r.Ok? ==> RunSoFar(g, negLog, w, s, d, nAnts, rho, found, r.value, history, marks, bests, table.tau, nIter)
    ensures r.Err? ==> r.error == ZeroDivision && EndsAtZeroCost(g, negLog, w, s, d, found)
    ensures |history| >= 1 && history[0] == old(table.tau)
    ensures forall i :: 0 <= i < |history| ==> history[i].Keys == g.edges.Keys
  {
    ghost var tau0 := table.tau;
    var best := Best(None, Infinite, None);
    found := [];
    history := [tau0];
    marks := [0];
    bests := [];
    for iteration := 0 to nIter
      invariant table.tau.Keys == g.edges.Keys && |history| >= 1 && history[0] == tau0
      invariant RunSoFar(g, negLog, w, s, d, nAnts, rho, found, best, history, marks, bests, table.tau, iteration)
    {
      var step;
      ghost var found', history', marks', bests';
      step, found', history', marks', bests' :=
        RecordedIteration(g, negLog, pow, s, d, w, h, table, nAnts, alpha, beta, rho, found, best, history, marks, bests, iteration);
      assert history'[0] == history[0];
      if step.Err? {
        return Err(ZeroDivision), found', history, marks, bests;
      }
      best := step.value;
      found, history, marks, bests := found', history', marks', bests';
    }
    r := Ok(best);
  }

  /** What a run that has gone through all its iterations returns. */
  lemma RunDone(g: Graph, negLog: real -> real, w: Weights, s: Node, d: Node, nAnts: nat, nIter: nat, rho: real,
                found: seq<Path>, best: Best, history: seq<map<Edge, real>>, marks: seq<nat>, bests: seq<Best>,
                tau: map<Edge, real>)
    requires Scorable(g) && RunSoFar(g, negLog, w, s, d, nAnts, rho, found, best, history, marks, bests, tau, nIter)
    ensures best.path.Some? ==>
              && SimplePath(g, best.path.value, s, d)
              && best.cost == Finite(PathScore(g, negLog, best.path.value, w))
              && best.metrics == Some(MetricsOf(g, negLog, best.path.value))
    ensures best.path.None? ==> best == Best(None, Infinite, None)
    ensures best.path.None? ==> nAnts == 0 || nIter == 0 || exists walk :: DeadEnd(g, walk, s, d)
    ensures rho == 0.0 && AllPositive(g, negLog, w, s, d, found) ==> NonDecreasing(history)
  {
    BestRecord(g, negLog, w, s, d, found, best);
    if rho == 0.0 && AllPositive(g, negLog, w, s, d, found) {
      RecordedNonDecreasing(g, negLog, w, s, d, found, marks, history, bests);
    }
    if best.path.None? && nAnts > 0 && nIter > 0 {
      assert found == [];
      assert nAnts * nIter > 0;
    }
  }

  /** The record `ACO` returns is a simple path from `s` to `d` with its own cost and metrics,
      or nothing at all. */
  lemma BestRecord(g: Graph, negLog: real -> real, w: Weights, s: Node, d: Node, found: seq<Path>, b: Best)
    requires Scorable(g) && AllSimple(g, found, s, d) && IsBestOf(g, negLog, w, s, d, found, b)
    ensures b.path.Some? ==>
              && SimplePath(g, b.path.value, s, d)
              && b.cost == Finite(PathScore(g, negLog, b.path.value, w))
              && b.metrics == Some(MetricsOf(g, negLog, b.path.value))
    ensures b.path.None? ==> b == Best(None, Infinite, None)
  {
    if b.path.Some? {
      var i :| IsBestAt(g, negLog, w, s, d, found, b, i);
      assert SimplePath(g, found[i], s, d);
    }
  }
}

/**
 The Q-learning agent. It keeps a table of Q values, one row per node keyed by that node's
 neighbours, and an exploration rate; training walks episodes from a start node, updates one
 entry per step by the Bellman equation and decays the exploration rate after each episode.
 The learnt route is read off greedily.

 The draw of `random.random()` is the parameter `roll` of `ChooseAction`; every other random
 choice is a `:|` choice among the values the source can pick.
 */
module QLearning {
  import opened Graphs
  import opened Metrics
  import Aco

  type QTable = map<Node, map<Node, real>>

  /** The defaults of the agent's keyword arguments; the default metric weights are
      `Metrics.DefaultWeights`. */
  const DefaultLearningRate := 0.1
  const DefaultDiscountFactor := 0.9
  const DefaultExplorationRate := 1.0
  const DefaultExplorationDecay := 0.995

  /** An episode ends after this many steps. */
  const MaxSteps: nat := 100
  /** The greedy path stops once it holds more than 50 nodes. */
  const MaxPathLength: nat := 51
  /** Added to the reward of a step into the goal. */
  const GoalBonus := 1000.0
  /** The reliability and resource costs of a link whose reliability product or bandwidth is not positive. */
  const FallbackCost := 100.0

  // ---------------------------------------------------------------------------
  // the table
  // ---------------------------------------------------------------------------

  function ZeroRow(nbrs: seq<Node>): map<Node, real> {
    map a | a in nbrs :: 0.0
  }

  /** The table `__init__` builds: every neighbour of every node at 0. */
  function ZeroTable(g: Graph): QTable
    requires g.adj.Keys == g.nodes.Keys
  {
    map n | n in g.nodes :: ZeroRow(g.adj[n])
  }

  /** The key structure every update keeps: one row per node, keyed by exactly its neighbours. */
  ghost predicate Shaped(g: Graph, t: QTable)
    requires g.adj.Keys == g.nodes.Keys
  {
    t.Keys == g.nodes.Keys && forall n, a :: n in t ==> (a in t[n] <==> a in g.adj[n])
  }

  lemma ZeroTableShaped(g: Graph)
    requires g.adj.Keys == g.nodes.Keys
    ensures Shaped(g, ZeroTable(g))
  {
  }

  /** Every position of `nbrs` has an entry in `row`. */
  predicate Keyed(row: map<Node, real>, nbrs: seq<Node>) {
    forall i :: 0 <= i < |nbrs| ==> nbrs[i] in row
  }

  lemma ShapedKeyed(g: Graph, t: QTable, n: Node)
    requires g.adj.Keys == g.nodes.Keys && Shaped(g, t) && n in g.nodes
    ensures n in t && Keyed(t[n], g.adj[n])
  {
    assert n in t;
    forall i | 0 <= i < |g.adj[n]| ensures g.adj[n][i] in t[n] {
      var a := g.adj[n][i];
      assert a in g.adj[n];
    }
  }

  /** `max(q_vals, key=q_vals.get)` over `nbrs` in order: the position of the first neighbour
      of greatest Q value. */
  function FirstArgMax(row: map<Node, real>, nbrs: seq<Node>): (i: nat)
    requires |nbrs| > 0 && Keyed(row, nbrs)
    ensures i < |nbrs|
    ensures forall j :: 0 <= j < |nbrs| ==> row[nbrs[j]] <= row[nbrs[i]]
    ensures forall j :: 0 <= j < i ==> row[nbrs[j]] < row[nbrs[i]]
  {
    if |nbrs| == 1 then 0
    else
      var k := FirstArgMax(row, nbrs[..|nbrs| - 1]);
      if row[nbrs[|nbrs| - 1]] > row[nbrs[k]] then |nbrs| - 1 else k
  }

  /** With every Q value equal, as in a fresh table, the first neighbour is picked. */
  lemma {:induction false} FirstArgMaxOfTies(row: map<Node, real>, nbrs: seq<Node>, q: real)
    requires |nbrs| > 0 && Keyed(row, nbrs)
    requires forall i :: 0 <= i < |nbrs| ==> row[nbrs[i]] == q
    ensures FirstArgMax(row, nbrs) == 0
  {
    if |nbrs| > 1 {
      FirstArgMaxOfTies(row, nbrs[..|nbrs| - 1], q);
    }
  }

  /** The greatest Q value of `t` among the neighbours of `n`, or 0 when it has none. */
  function BestIn(g: Graph, t: QTable, n: Node): real
    requires g.adj.Keys == g.nodes.Keys && Shaped(g, t) && HasNode(g, n)
  {
    var nbrs := Neighbors(g, n);
    if |nbrs| == 0 then 0.0
    else
      ShapedKeyed(g, t, n);
      MaxQ(t[n], nbrs)
  }

  lemma WalkPrefix(g: Graph, w: Path)
    requires IsWalk(g, w) && |w| >= 1
    ensures IsWalk(g, w[..|w| - 1])
  {
    var init := w[..|w| - 1];
    forall i | 0 <= i < |init| - 1 ensures LinkAt(g, init, i) {
      assert LinkAt(g, w, i);
    }
  }

  /** `max` of the Q values of `nbrs`: an upper bound that some neighbour attains. */
  function MaxQ(row: map<Node, real>, nbrs: seq<Node>): (m: real)
    requires |nbrs| > 0 && Keyed(row, nbrs)
    ensures forall j :: 0 <= j < |nbrs| ==> row[nbrs[j]] <= m
    ensures exists j :: 0 <= j < |nbrs| && row[nbrs[j]] == m
  {
    row[nbrs[FirstArgMax(row, nbrs)]]
  }

  /** The Bellman update of `update_q_value`. */
  function Bellman(learningRate: real, discountFactor: real, current: real, reward: real, bestNext: real): real {
    current + learningRate * (reward + discountFactor * bestNext - current)
  }

  /** With a learning rate in [0, 1] the new value lies between the old value and the target
      `reward + discountFactor * bestNext`; rate 1 jumps to the target and rate 0 keeps the old value. */
  lemma BellmanBetween(learningRate: real, discountFactor: real, current: real, reward: real, bestNext: real)
    requires 0.0 <= learningRate <= 1.0
    ensures var q, target := Bellman(learningRate, discountFactor, current, reward, bestNext), reward + discountFactor * bestNext;
            && (current <= target ==> current <= q <= target)
            && (target <= current ==> target <= q <= current)
            && (learningRate == 1.0 ==> q == target)
            && (learningRate == 0.0 ==> q == current)
  {
    var target := reward + discountFactor * bestNext;
    var d := target - current;
    var step := learningRate * d;
    assert Bellman(learningRate, discountFactor, current, reward, bestNext) == current + step;
    assert step + (1.0 - learningRate) * d == d;
    if current <= target {
      NonNegProduct(learningRate, d);
      NonNegProduct(1.0 - learningRate, d);
    } else {
      NonNegProduct(learningRate, -d);
      NonNegProduct(1.0 - learningRate, -d);
      assert learningRate * -d == -step;
      assert (1.0 - learningRate) * -d == -((1.0 - learningRate) * d);
    }
  }

  function Power(x: real, n: nat): real {
    if n == 0 then 1.0 else Power(x, n - 1) * x
  }

  lemma {:induction false} PowerInUnit(x: real, n: nat)
    requires 0.0 <= x <= 1.0
    ensures 0.0 <= Power(x, n) <= 1.0
  {
    if n > 0 {
      PowerInUnit(x, n - 1);
      NonNegProduct(Power(x, n - 1), x);
      NonNegProduct(Power(x, n - 1), 1.0 - x);
    }
  }

  lemma {:induction false} PowerAntitone(x: real, n: nat, m: nat)
    requires 0.0 <= x <= 1.0 && n <= m
    ensures Power(x, m) <= Power(x, n)
  {
    if n < m {
      PowerAntitone(x, n, m - 1);
      PowerInUnit(x, m - 1);
      NonNegProduct(Power(x, m - 1), 1.0 - x);
    }
  }

  /** A decay factor in [0, 1] never raises a non-negative exploration rate: after more
      episodes the rate is no higher, and never below 0. */
  lemma DecayNeverRaises(rate: real, decay: real, n: nat, m: nat)
    requires rate >= 0.0 && 0.0 <= decay <= 1.0 && n <= m
    ensures 0.0 <= rate * Power(decay, m) <= rate * Power(decay, n) <= rate
  {
    PowerInUnit(decay, n);
    PowerInUnit(decay, m);
    PowerAntitone(decay, n, m);
    NonNegProduct(rate, Power(decay, m));
    NonNegProduct(rate, Power(decay, n) - Power(decay, m));
    NonNegProduct(rate, 1.0 - Power(decay, n));
  }

  // ---------------------------------------------------------------------------
  // episodes and routes
  // ---------------------------------------------------------------------------

  /** Every trace of `traces` is a walk. */
  ghost predicate Walks(g: Graph, traces: seq<Path>) {
    forall e :: 0 <= e < |traces| ==> IsWalk(g, traces[e])
  }

  lemma WalksTake(g: Graph, traces: seq<Path>, e: nat)
    requires Walks(g, traces) && e < |traces|
    ensures Walks(g, traces[..e]) && IsWalk(g, traces[e])
  {
    var init := traces[..e];
    forall i | 0 <= i < |init| ensures IsWalk(g, init[i]) {
      assert init[i] == traces[i];
    }
  }

  lemma WalksPrefix(g: Graph, traces: seq<Path>)
    requires Walks(g, traces) && |traces| >= 1
    ensures Walks(g, traces[..|traces| - 1])
  {
    var init := traces[..|traces| - 1];
    forall e | 0 <= e < |init| ensures IsWalk(g, init[e]) {
      assert init[e] == traces[e];
    }
  }

  /** The step from `s` to `a` is taken somewhere along `w`. */
  ghost predicate OnTrace(w: Path, s: Node, a: Node) {
    exists i :: 0 <= i < |w| - 1 && w[i] == s && w[i + 1] == a
  }

  lemma OnTraceAppend(w: Path, v: Node)
    requires |w| >= 1
    ensures forall s, a :: OnTrace(w + [v], s, a) <==> OnTrace(w, s, a) || (s == Last(w) && a == v)
  {
    var q := w + [v];
    forall s, a ensures OnTrace(q, s, a) <==> OnTrace(w, s, a) || (s == Last(w) && a == v) {
      if OnTrace(q, s, a) {
        var i :| 0 <= i < |q| - 1 && q[i] == s && q[i + 1] == a;
        if i < |w| - 1 {
          assert w[i] == s && w[i + 1] == a;
        }
      }
      if OnTrace(w, s, a) {
        var i :| 0 <= i < |w| - 1 && w[i] == s && w[i + 1] == a;
        assert q[i] == s && q[i + 1] == a;
      }
      if s == Last(w) && a == v {
        assert q[|w| - 1] == s && q[|w|] == a;
      }
    }
  }

  /** The entry of a table, 0 where it has none (the default of `get_q_value`). */
  function Entry(t: QTable, s: Node, a: Node): (q: real)
    ensures s in t && a in t[s] ==> q == t[s][a]
    ensures !(s in t && a in t[s]) ==> q == 0.0
  {
    if s in t && a in t[s] then t[s][a] else 0.0
  }

  /** `a` has the greatest Q value in `t` among the neighbours of `s`: the move `choose_action`
      makes when it exploits. */
  ghost predicate GreedyMove(g: Graph, t: QTable, s: Node, a: Node) {
    s in g.adj ==> forall j :: 0 <= j < |g.adj[s]| ==> Entry(t, s, g.adj[s][j]) <= Entry(t, s, a)
  }

  /** `t1` agrees with `t0` on every step the walk `w` does not take. */
  ghost predicate SameOffTrace(t0: QTable, t1: QTable, w: Path) {
    forall s, a :: !OnTrace(w, s, a) ==> Entry(t1, s, a) == Entry(t0, s, a)
  }

  lemma SameOffTraceExtend(t0: QTable, t1: QTable, t2: QTable, w: Path, v: Node)
    requires |w| >= 1 && SameOffTrace(t0, t1, w)
    requires forall s, a :: (s, a) != (Last(w), v) ==> Entry(t2, s, a) == Entry(t1, s, a)
    ensures SameOffTrace(t0, t2, w + [v])
  {
    OnTraceAppend(w, v);
  }

  /** Some episode of `traces` takes the step from `s` to `a`. */
  ghost predicate Visited(traces: seq<Path>, s: Node, a: Node) {
    exists e :: 0 <= e < |traces| && OnTrace(traces[e], s, a)
  }

  lemma VisitedAppend(traces: seq<Path>, w: Path)
    ensures forall s, a :: Visited(traces + [w], s, a) <==> Visited(traces, s, a) || OnTrace(w, s, a)
  {
    var all := traces + [w];
    assert all[|traces|] == w;
    forall s, a ensures Visited(all, s, a) <==> Visited(traces, s, a) || OnTrace(w, s, a) {
      if Visited(all, s, a) {
        var e :| 0 <= e < |all| && OnTrace(all[e], s, a);
        if e < |traces| {
          assert all[e] == traces[e];
        }
      }
      if Visited(traces, s, a) {
        var e :| 0 <= e < |traces| && OnTrace(traces[e], s, a);
        assert all[e] == traces[e];
      }
    }
  }

  /** The states of one training episode: from `s`, along links, never past `t`, for at most
      100 steps, and stopped by the goal, the step limit or a node without neighbours. */
  ghost predicate Episode(g: Graph, w: Path, s: Node, t: Node) {
    && 1 <= |w| <= MaxSteps + 1 && w[0] == s && IsWalk(g, w)
    && (forall i :: 0 <= i < |w| - 1 ==> w[i] != t)
    && (Last(w) == t || |w| == MaxSteps + 1 || (Last(w) in g.adj && |g.adj[Last(w)]| == 0))
  }

  /** An episode still under way: a prefix of an `Episode` that has not passed the goal and
      whose states, unless it stands on the goal, are nodes of the graph. */
  ghost predicate EpisodeSoFar(g: Graph, w: Path, s: Node, t: Node) {
    && 1 <= |w| <= MaxSteps + 1 && w[0] == s && IsWalk(g, w)
    && (Last(w) == t || NodesIn(g, w))
    && (forall i :: 0 <= i < |w| - 1 ==> w[i] != t)
  }

  lemma EpisodeSoFarExtend(g: Graph, w: Path, s: Node, t: Node, v: Node)
    requires EpisodeSoFar(g, w, s, t) && |w| <= MaxSteps && Last(w) != t
    requires HasEdge(g, Last(w), v) && HasNode(g, v)
    ensures EpisodeSoFar(g, w + [v], s, t)
  {
    WalkExtend(g, w, v);
    var q := w + [v];
    assert forall i :: 0 <= i < |w| ==> q[i] == w[i];
  }

  lemma EpisodeSoFarEnds(g: Graph, w: Path, s: Node, t: Node)
    requires EpisodeSoFar(g, w, s, t)
    requires Last(w) == t || |w| == MaxSteps + 1 || (Last(w) in g.adj && |g.adj[Last(w)]| == 0)
    ensures Episode(g, w, s, t)
  {
  }

  /** Attributes as the reward reads them: a delay that is present is non-negative and a
      reliability that is present lies in [0, 1]. */
  ghost predicate PlausibleAttrs(g: Graph) {
    && (forall n :: n in g.nodes ==> GetOr(g.nodes[n].processingDelay, 0.0) >= 0.0
                                     && 0.0 <= GetOr(g.nodes[n].nodeReliability, 0.0) <= 1.0)
    && (forall e :: e in g.edges ==> GetOr(g.edges[e].linkDelay, 0.0) >= 0.0
                                     && 0.0 <= GetOr(g.edges[e].linkReliability, 0.0) <= 1.0)
  }

  // ---------------------------------------------------------------------------
  // calculate_reward
  // ---------------------------------------------------------------------------

  /** The delay of the step from `u` into `v`: the link delay (default 5) and the processing
      delay of `v` (default 1). */
  function StepDelay(g: Graph, u: Node, v: Node): real
    requires HasEdge(g, u, v) && HasNode(g, v)
  {
    GetOr(g.edges[(u, v)].linkDelay, 5.0) + GetOr(g.nodes[v].processingDelay, 1.0)
  }

  /** The reliability cost of the step: -ln of the link reliability times the reliability of
      `v` (both default 0.99), or 100 when that product is not positive. */
  function StepReliabilityCost(g: Graph, negLog: real -> real, u: Node, v: Node): real
    requires HasEdge(g, u, v) && HasNode(g, v)
  {
    var product := Times(GetOr(g.edges[(u, v)].linkReliability, 0.99), GetOr(g.nodes[v].nodeReliability, 0.99));
    if product > 0.0 then negLog(product) else FallbackCost
  }

  /** The resource cost of the step: 1000 over the bandwidth (default 100), or 100 when the
      bandwidth is not positive. */
  function StepResourceCost(g: Graph, u: Node, v: Node): real
    requires HasEdge(g, u, v)
  {
    var bandwidth := GetOr(g.edges[(u, v)].bandwidth, 100.0);
    if bandwidth > 0.0 then 1000.0 / bandwidth else FallbackCost
  }

  /** `calculate_reward`: minus the weighted cost of the step from `u` to `v`, read from the
      agent's graph and weights. With every attribute in range it is minus the link cost the
      ant colony uses, minus the weighted delay and reliability cost of the node entered. */
  function Reward(g: Graph, negLog: real -> real, w: Weights, u: Node, v: Node): (r: real)
    requires HasEdge(g, u, v) && HasNode(g, v)
    ensures InRange(g) && NegLogLaws(negLog) ==>
              && Aco.EdgeCostDefined(g, u, v)
              && r == -(Aco.EdgeCost(g, negLog, u, v, w)
                        + w.delay * g.nodes[v].processingDelay.value
                        + w.reliability * negLog(g.nodes[v].nodeReliability.value))
  {
    assert InRange(g) && NegLogLaws(negLog) ==>
             && StepDelay(g, u, v) == g.edges[(u, v)].linkDelay.value + g.nodes[v].processingDelay.value
             && StepReliabilityCost(g, negLog, u, v)
                == negLog(g.edges[(u, v)].linkReliability.value) + negLog(g.nodes[v].nodeReliability.value)
             && StepResourceCost(g, u, v) == 1000.0 / g.edges[(u, v)].bandwidth.value by {
      if InRange(g) && NegLogLaws(negLog) {
        var e, n := g.edges[(u, v)], g.nodes[v];
        assert EdgeInRange(e) && NodeInRange(n);
        var rl, rn := e.linkReliability.value, n.nodeReliability.value;
        PositiveProduct(rl, rn);
        assert Times(rl, rn) == rl * rn;
      }
    }
    -StepCost(g, negLog, w, u, v)
  }

  /** The weighted cost of the step from `u` to `v`, before its sign is turned. */
  function StepCost(g: Graph, negLog: real -> real, w: Weights, u: Node, v: Node): real
    requires HasEdge(g, u, v) && HasNode(g, v)
  {
    w.delay * StepDelay(g, u, v) + w.reliability * StepReliabilityCost(g, negLog, u, v)
    + w.resource * StepResourceCost(g, u, v)
  }

  /** Under plausible attributes each of the three step costs is non-negative. */
  lemma StepCostsNonNegative(g: Graph, negLog: real -> real, u: Node, v: Node)
    requires HasEdge(g, u, v) && HasNode(g, v) && NegLogLaws(negLog) && PlausibleAttrs(g)
    ensures StepDelay(g, u, v) >= 0.0 && StepReliabilityCost(g, negLog, u, v) >= 0.0 && StepResourceCost(g, u, v) >= 0.0
  {
    var e, n := g.edges[(u, v)], g.nodes[v];
    assert StepDelay(g, u, v) >= 0.0;
    var rl, rn := GetOr(e.linkReliability, 0.99), GetOr(n.nodeReliability, 0.99);
    UnitProduct(rl, rn);
    assert Times(rl, rn) == rl * rn;
    assert StepReliabilityCost(g, negLog, u, v) >= 0.0;
    var bandwidth := GetOr(e.bandwidth, 100.0);
    if bandwidth > 0.0 {
      Aco.PositiveQuotient(1000.0, bandwidth);
    }
  }

  /** Under non-negative weights and plausible attributes no step is rewarded. */
  lemma RewardNonPositive(g: Graph, negLog: real -> real, w: Weights, u: Node, v: Node)
    requires HasEdge(g, u, v) && HasNode(g, v)
    requires NonNegWeights(w) && NegLogLaws(negLog) && PlausibleAttrs(g)
    ensures Reward(g, negLog, w, u, v) <= 0.0
  {
    StepCostNonNegative(g, negLog, w, u, v);
  }

  lemma StepCostNonNegative(g: Graph, negLog: real -> real, w: Weights, u: Node, v: Node)
    requires HasEdge(g, u, v) && HasNode(g, v)
    requires NonNegWeights(w) && NegLogLaws(negLog) && PlausibleAttrs(g)
    ensures StepCost(g, negLog, w, u, v) >= 0.0
  {
    StepCostsNonNegative(g, negLog, u, v);
    NonNegProduct(w.delay, StepDelay(g, u, v));
    NonNegProduct(w.reliability, StepReliabilityCost(g, negLog, u, v));
    NonNegProduct(w.resource, StepResourceCost(g, u, v));
  }

  class QLearningAgent {
    const graph: Graph
    const negLog: real -> real
    const weights: Weights
    const learningRate: real
    const discountFactor: real
    const explorationDecay: real
    var qTable: QTable
    var explorationRate: real

    ghost predicate Valid()
      reads this
    {
      Graphs.Valid(graph) && Shaped(graph, qTable)
    }

    /** `__init__`: a row for every node, with every neighbour at 0. */
    constructor (graph: Graph, negLog: real -> real, weights: Weights, learningRate: real,
                 discountFactor: real, explorationRate: real, explorationDecay: real)
      requires Graphs.Valid(graph)
      ensures this.graph == graph && this.negLog == negLog && this.weights == weights
      ensures this.learningRate == learningRate && this.discountFactor == discountFactor
      ensures this.explorationRate == explorationRate && this.explorationDecay == explorationDecay
      ensures Valid() && qTable == ZeroTable(graph)
      ensures forall s, a :: GetQValue(s, a) == 0.0
    {
      this.graph := graph;
      this.negLog := negLog;
      this.weights := weights;
      this.learningRate := learningRate;
      this.discountFactor := discountFactor;
      this.explorationRate := explorationRate;
      this.explorationDecay := explorationDecay;
      var table: QTable := map[];
      var todo := graph.nodes.Keys;
      while todo != {}
        invariant todo <= graph.nodes.Keys
        invariant table.Keys == graph.nodes.Keys - todo
        invariant forall n :: n in table ==> table[n] == ZeroRow(graph.adj[n])
        decreases todo
      {
        NonEmptyHasMember(todo);
        var node :| node in todo;
        var nbrs := graph.adj[node];
        var row: map<Node, real> := map[];
        for i := 0 to |nbrs|
          invariant forall a :: a in row <==> a in nbrs[..i]
          invariant forall a :: a in row ==> row[a] == 0.0
        {
          assert nbrs[..i + 1] == nbrs[..i] + [nbrs[i]];
          row := row[nbrs[i] := 0.0];
        }
        assert nbrs[..|nbrs|] == nbrs;
        assert row.Keys == ZeroRow(nbrs).Keys;
        assert row == ZeroRow(nbrs);
        table := table[node := row];
        todo := todo - {node};
      }
      assert table.Keys == ZeroTable(graph).Keys;
      forall n | n in table ensures table[n] == ZeroTable(graph)[n] {
      }
      assert table == ZeroTable(graph);
      qTable := table;
      ZeroTableShaped(graph);
    }

    /** `get_q_value`: the entry, or 0 for a state or an action without one. */
    function GetQValue(state: Node, action: Node): (q: real)
      reads this
      ensures state in qTable && action in qTable[state] ==> q == qTable[state][action]
      ensures !(state in qTable && action in qTable[state]) ==> q == 0.0
    {
      Entry(qTable, state, action)
    }

    /** `choose_action`: `None` exactly when `state` has no neighbours; otherwise a neighbour,
        any one when `roll` falls below the exploration rate, and else one of greatest Q value. */
    method ChooseAction(state: Node, roll: real) returns (action: Option<Node>)
      requires Valid() && HasNode(graph, state)
      ensures action.None? <==> |Neighbors(graph, state)| == 0
      ensures action.Some? ==> action.value in Neighbors(graph, state) && HasEdge(graph, state, action.value)
      ensures action.Some? && roll >= explorationRate ==>
                forall j :: 0 <= j < |Neighbors(graph, state)| ==>
                  GetQValue(state, Neighbors(graph, state)[j]) <= GetQValue(state, action.value)
    {
      var nbrs := Neighbors(graph, state);
      if |nbrs| == 0 {
        return None;
      }
      ShapedKeyed(graph, qTable, state);
      var row := qTable[state];
      var k: nat;
      if roll < explorationRate {
        k :| k < |nbrs|;
      } else {
        var best := MaxQ(row, nbrs);
        k :| k < |nbrs| && row[nbrs[k]] == best;
      }
      action := Some(nbrs[k]);
      NeighborIsEdge(graph, state, nbrs[k]);
    }

    /** The greatest Q value among the neighbours of `next`, or 0 when it has none. */
    function BestNext(next: Node): (b: real)
      reads this
      requires Valid() && HasNode(graph, next)
      ensures |Neighbors(graph, next)| == 0 ==> b == 0.0
      ensures forall j :: 0 <= j < |Neighbors(graph, next)| ==> GetQValue(next, Neighbors(graph, next)[j]) <= b
      ensures |Neighbors(graph, next)| > 0 ==>
                exists j :: 0 <= j < |Neighbors(graph, next)| && GetQValue(next, Neighbors(graph, next)[j]) == b
    {
      BestIn(graph, qTable, next)
    }

    /** `update_q_value`: the entry of `state` and `action` moves by the Bellman equation
        towards `reward` plus the discounted best value of `next`; nothing else changes. */
    method UpdateQValue(state: Node, action: Node, reward: real, next: Node)
      modifies this
      requires Valid() && HasEdge(graph, state, action) && HasNode(graph, next)
      ensures Valid() && explorationRate == old(explorationRate)
      ensures state in old(qTable) && action in old(qTable)[state]
      ensures qTable == old(qTable)[state := old(qTable)[state][action :=
                Bellman(learningRate, discountFactor, old(qTable)[state][action], reward, old(BestNext(next)))]]
      ensures GetQValue(state, action)
              == Bellman(learningRate, discountFactor, old(GetQValue(state, action)), reward, old(BestNext(next)))
      ensures forall s, a :: (s, a) != (state, action) ==> GetQValue(s, a) == old(GetQValue(s, a))
    {
      assert Adjacent(graph, state, action);
      var bestNext := BestNext(next);
      var current := qTable[state][action];
      var newQ := Bellman(learningRate, discountFactor, current, reward, bestNext);
      qTable := qTable[state := qTable[state][action := newQ]];
    }

    /** One episode of `train`: from `start`, choose, reward (with the bonus for stepping into
        the goal), update and move, until the goal, 100 steps or a node without neighbours.
        Only the steps taken change the table. */
    method RunEpisode(start: Node, goal: Node) returns (ghost trace: Path)
      modifies this
      requires Valid() && (start == goal || HasNode(graph, start))
      ensures Valid() && explorationRate == old(explorationRate)
      ensures Episode(graph, trace, start, goal)
      ensures forall s, a :: !OnTrace(trace, s, a) ==> GetQValue(s, a) == old(GetQValue(s, a))
      ensures qTable == Replay(old(qTable), trace, goal)
      ensures old(explorationRate) <= 0.0 ==> GreedyReplay(old(qTable), trace, goal)
    {
      ghost var t0 := qTable;
      var state := start;
      var steps := 0;
      trace := [start];
      while state != goal && steps < MaxSteps
        invariant Valid() && explorationRate == old(explorationRate)
        invariant |trace| == steps + 1 && Last(trace) == state
        invariant EpisodeSoFar(graph, trace, start, goal)
        invariant Replayed(t0, trace, goal, qTable, explorationRate)
        decreases MaxSteps - steps
      {
        assert NodeAt(graph, trace, |trace| - 1);
        ghost var before := qTable;
        var action, _ := Step(state, goal);
        if action.None? {
          break;
        }
        var next := action.value;
        EpisodeSoFarExtend(graph, trace, start, goal, next);
        ReplayedStep(t0, trace, next, goal, before, explorationRate);
        trace := trace + [next];
        state := next;
        steps := steps + 1;
      }
      EpisodeSoFarEnds(graph, trace, start, goal);
      ReplayOffTrace(t0, trace, goal);
    }

    /** One pass of the episode loop from `state`: `None` when it has no neighbours, and
        otherwise the neighbour chosen, whose entry has moved by the Bellman equation towards
        the step's reward (plus the bonus when it is the goal); nothing else changes. */
    method Step(state: Node, goal: Node) returns (action: Option<Node>, reward: real)
      modifies this
      requires Valid() && HasNode(graph, state)
      ensures Valid() && explorationRate == old(explorationRate)
      ensures action.None? <==> |Neighbors(graph, state)| == 0
      ensures action.None? ==> qTable == old(qTable)
      ensures action.Some? ==> HasEdge(graph, state, action.value) && HasNode(graph, action.value)
      ensures action.Some? ==>
                reward == Reward(graph, negLog, weights, state, action.value) + (if action.value == goal then GoalBonus else 0.0)
      ensures action.Some? ==>
                GetQValue(state, action.value)
                == Bellman(learningRate, discountFactor, old(GetQValue(state, action.value)), reward, old(BestNext(action.value)))
      ensures action.Some? ==>
                forall s, a :: (s, a) != (state, action.value) ==> GetQValue(s, a) == old(GetQValue(s, a))
      ensures action.Some? ==> qTable == Learn(old(qTable), state, action.value, goal)
      ensures action.Some? && old(explorationRate) <= 0.0 ==>
                forall j :: 0 <= j < |Neighbors(graph, state)| ==>
                  old(GetQValue(state, Neighbors(graph, state)[j])) <= old(GetQValue(state, action.value))
      ensures action.Some? && old(explorationRate) <= 0.0 ==> GreedyMove(graph, old(qTable), state, action.value)
    {
      var roll: real :| 0.0 <= roll < 1.0;
      action := ChooseAction(state, roll);
      if action.None? {
        return action, 0.0;
      }
      var next := action.value;
      NeighborIsEdge(graph, state, next);
      reward := Reward(graph, negLog, weights, state, next) + (if next == goal then GoalBonus else 0.0);
      ghost var t0 := qTable;
      ghost var learnt := Learn(t0, state, next, goal);
      assert learnt == t0[state := t0[state][next := Bellman(learningRate, discountFactor, t0[state][next],
                                                             reward, BestIn(graph, t0, next))]];
      assert BestNext(next) == BestIn(graph, t0, next);
      UpdateQValue(state, next, reward, next);
      assert qTable == learnt;
    }

    /** `train`: `episodes` episodes, each followed by one decay of the exploration rate.
        The table keeps its keys, entries no episode stepped through keep their values, and
        zero episodes leave the table as it was. */
    method Train(start: Node, goal: Node, episodes: nat) returns (ghost traces: seq<Path>)
      modifies this
      requires Valid() && (start == goal || HasNode(graph, start))
      ensures Valid()
      ensures explorationRate == old(explorationRate) * Power(explorationDecay, episodes)
      ensures |traces| == episodes && forall e :: 0 <= e < episodes ==> Episode(graph, traces[e], start, goal)
      ensures forall s, a :: !Visited(traces, s, a) ==> GetQValue(s, a) == old(GetQValue(s, a))
      ensures episodes == 0 ==> qTable == old(qTable)
      ensures Walks(graph, traces) && qTable == ReplayAll(old(qTable), traces, goal)
      ensures GreedyEpisodes(old(qTable), traces, old(explorationRate), goal)
    {
      traces := [];
      for episode := 0 to episodes
        invariant Valid() && |traces| == episode
        invariant Trained(old(qTable), old(explorationRate), start, goal, traces, qTable, explorationRate)
      {
        ghost var before, rate := qTable, explorationRate;
        var trace := RunEpisode(start, goal);
        TrainedExtend(old(qTable), old(explorationRate), start, goal, traces, before, rate, trace, qTable);
        traces := traces + [trace];
        explorationRate := explorationRate * explorationDecay;
      }
      ReplayAllOffVisited(old(qTable), traces, goal);
    }

    /** After the episodes `traces` of `train` from table `t0` and exploration rate `rate0`: the
        table is `t` and the rate `rate`. */
    ghost predicate Trained(t0: QTable, rate0: real, start: Node, goal: Node, traces: seq<Path>, t: QTable, rate: real)
      requires Graphs.Valid(graph) && Shaped(graph, t0)
    {
      && rate == RateAt(rate0, |traces|)
      && (forall e :: 0 <= e < |traces| ==> Episode(graph, traces[e], start, goal))
      && Walks(graph, traces) && t == ReplayAll(t0, traces, goal)
      && GreedyEpisodes(t0, traces, rate0, goal)
    }

    lemma TrainedExtend(t0: QTable, rate0: real, start: Node, goal: Node, traces: seq<Path>, t: QTable, rate: real,
                        w: Path, t': QTable)
      requires Graphs.Valid(graph) && Shaped(graph, t0)
      requires Trained(t0, rate0, start, goal, traces, t, rate)
      requires Episode(graph, w, start, goal) && t' == Replay(t, w, goal)
      requires rate <= 0.0 ==> GreedyReplay(t, w, goal)
      ensures Trained(t0, rate0, start, goal, traces + [w], t', rate * explorationDecay)
    {
      var all := traces + [w];
      assert forall e :: 0 <= e < |traces| ==> all[e] == traces[e];
      ReplayAllAppend(t0, traces, w, goal);
      GreedyEpisodesAppend(t0, traces, w, rate0, goal);
      RateStep(rate0, |traces|);
    }

    /** One more episode decays the rate once more. */
    lemma RateStep(rate0: real, n: nat)
      ensures RateAt(rate0, n + 1) == RateAt(rate0, n) * explorationDecay
    {
      var p := Power(explorationDecay, n);
      assert Power(explorationDecay, n + 1) == p * explorationDecay;
      assert rate0 * (p * explorationDecay) == (rate0 * p) * explorationDecay;
    }

    /** The table after the step from `s` into `a` of an episode towards `goal`: the entry of
        the step moves by the Bellman equation towards the step's reward (with the bonus for
        entering the goal) plus the discounted best value of `a` in `t`; no other entry moves. */
    ghost function Learn(t: QTable, s: Node, a: Node, goal: Node): (t': QTable)
      requires Graphs.Valid(graph) && Shaped(graph, t) && HasEdge(graph, s, a)
      ensures Shaped(graph, t')
      ensures Entry(t', s, a) == Bellman(learningRate, discountFactor, Entry(t, s, a),
                                         Reward(graph, negLog, weights, s, a) + (if a == goal then GoalBonus else 0.0),
                                         BestIn(graph, t, a))
      ensures forall x, y :: (x, y) != (s, a) ==> Entry(t', x, y) == Entry(t, x, y)
    {
      assert HasNode(graph, a) && Adjacent(graph, s, a);
      t[s := t[s][a := Bellman(learningRate, discountFactor, t[s][a],
                               Reward(graph, negLog, weights, s, a) + (if a == goal then GoalBonus else 0.0),
                               BestIn(graph, t, a))]]
    }

    /** The table after the steps of the walk `w`, one `Learn` per step, in order. */
    ghost function Replay(t: QTable, w: Path, goal: Node): (t': QTable)
      requires Graphs.Valid(graph) && Shaped(graph, t) && IsWalk(graph, w)
      ensures Shaped(graph, t')
      decreases |w|
    {
      if |w| < 2 then t
      else
        WalkPrefix(graph, w);
        assert LinkAt(graph, w, |w| - 2);
        Learn(Replay(t, w[..|w| - 1], goal), w[|w| - 2], w[|w| - 1], goal)
    }

    /** The table after the episodes `traces`, replayed in order. */
    ghost function ReplayAll(t: QTable, traces: seq<Path>, goal: Node): (t': QTable)
      requires Graphs.Valid(graph) && Shaped(graph, t) && Walks(graph, traces)
      ensures Shaped(graph, t')
      decreases |traces|
    {
      if traces == [] then t
      else
        WalksPrefix(graph, traces);
        Replay(ReplayAll(t, traces[..|traces| - 1], goal), traces[|traces| - 1], goal)
    }

    /** Every step of the walk `w`, replayed from `t`, moves to a neighbour of greatest Q value
        in the table as it stood before that step: an episode at exploration rate 0. */
    ghost predicate GreedyReplay(t: QTable, w: Path, goal: Node)
      requires Graphs.Valid(graph) && Shaped(graph, t) && IsWalk(graph, w)
      decreases |w|
    {
      if |w| < 2 then true
      else
        WalkPrefix(graph, w);
        && GreedyReplay(t, w[..|w| - 1], goal)
        && GreedyMove(graph, Replay(t, w[..|w| - 1], goal), w[|w| - 2], w[|w| - 1])
    }

    /** The episode `w` so far, replayed from `t0`, gives table `t`, and at exploration rate
        `rate` of at most 0 each of its steps was greedy. */
    ghost predicate Replayed(t0: QTable, w: Path, goal: Node, t: QTable, rate: real)
      requires Graphs.Valid(graph) && Shaped(graph, t0) && IsWalk(graph, w)
    {
      t == Replay(t0, w, goal) && (rate <= 0.0 ==> GreedyReplay(t0, w, goal))
    }

    lemma ReplayedStep(t0: QTable, w: Path, v: Node, goal: Node, t: QTable, rate: real)
      requires Graphs.Valid(graph) && Shaped(graph, t0) && |w| >= 1 && IsWalk(graph, w) && IsWalk(graph, w + [v])
      requires Replayed(t0, w, goal, t, rate) && HasEdge(graph, Last(w), v)
      requires rate <= 0.0 ==> GreedyMove(graph, t, Last(w), v)
      ensures Replayed(t0, w + [v], goal, Learn(t, Last(w), v, goal), rate)
    {
      ReplayAppend(t0, w, v, goal);
      GreedyAppend(t0, w, v, goal);
    }

    lemma GreedyAppend(t: QTable, w: Path, v: Node, goal: Node)
      requires Graphs.Valid(graph) && Shaped(graph, t) && |w| >= 1 && IsWalk(graph, w) && IsWalk(graph, w + [v])
      ensures GreedyReplay(t, w + [v], goal) <==> GreedyReplay(t, w, goal) && GreedyMove(graph, Replay(t, w, goal), Last(w), v)
    {
      var q := w + [v];
      assert q[..|q| - 1] == w;
      assert q[|q| - 2] == Last(w) && q[|q| - 1] == v;
    }

    /** Each episode of `traces` that began at an exploration rate of at most 0 (`rate0`
        decayed once per earlier episode) is a greedy replay from the table it began with. */
    ghost predicate GreedyEpisodes(t: QTable, traces: seq<Path>, rate0: real, goal: Node)
      requires Graphs.Valid(graph) && Shaped(graph, t) && Walks(graph, traces)
    {
      forall e :: 0 <= e < |traces| && RateAt(rate0, e) <= 0.0 ==>
        Walks(graph, traces[..e]) && GreedyReplay(ReplayAll(t, traces[..e], goal), traces[e], goal)
    }

    lemma GreedyEpisodesAppend(t: QTable, traces: seq<Path>, w: Path, rate0: real, goal: Node)
      requires Graphs.Valid(graph) && Shaped(graph, t) && Walks(graph, traces) && IsWalk(graph, w)
      requires GreedyEpisodes(t, traces, rate0, goal)
      requires RateAt(rate0, |traces|) <= 0.0 ==> GreedyReplay(ReplayAll(t, traces, goal), w, goal)
      ensures Walks(graph, traces + [w]) && GreedyEpisodes(t, traces + [w], rate0, goal)
    {
      var all := traces + [w];
      ReplayAllAppend(t, traces, w, goal);
      forall e | 0 <= e < |all| && RateAt(rate0, e) <= 0.0
        ensures Walks(graph, all[..e]) && IsWalk(graph, all[e]) && GreedyReplay(ReplayAll(t, all[..e], goal), all[e], goal)
      {
        WalksTake(graph, all, e);
        if e < |traces| {
          WalksTake(graph, traces, e);
          assert GreedyReplay(ReplayAll(t, traces[..e], goal), traces[e], goal);
          assert all[..e] == traces[..e] && all[e] == traces[e];
          GreedyAgain(t, traces[..e], traces[e], all[..e], all[e], goal);
        } else {
          assert all[..e] == traces && all[e] == w;
          GreedyAgain(t, traces, w, all[..e], all[e], goal);
        }
      }
    }

    /** The exploration rate after `e` decays of `rate0`. */
    function RateAt(rate0: real, e: nat): real {
      rate0 * Power(explorationDecay, e)
    }

    /** Restates `GreedyReplay` for equal arguments; a solver aid that models nothing of its own. */
    lemma GreedyAgain(t: QTable, ts: seq<Path>, w: Path, ts': seq<Path>, w': Path, goal: Node)
      requires Graphs.Valid(graph) && Shaped(graph, t) && Walks(graph, ts) && IsWalk(graph, w)
      requires GreedyReplay(ReplayAll(t, ts, goal), w, goal)
      requires ts' == ts && w' == w
      ensures Walks(graph, ts') && IsWalk(graph, w') && GreedyReplay(ReplayAll(t, ts', goal), w', goal)
    {
    }

    /** The last step of a replay, unfolded once. */
    lemma ReplayStep(t: QTable, w: Path, goal: Node)
      requires Graphs.Valid(graph) && Shaped(graph, t) && |w| >= 2 && IsWalk(graph, w)
      ensures IsWalk(graph, w[..|w| - 1]) && HasEdge(graph, w[|w| - 2], w[|w| - 1])
      ensures Replay(t, w, goal) == Learn(Replay(t, w[..|w| - 1], goal), w[|w| - 2], w[|w| - 1], goal)
    {
      WalkPrefix(graph, w);
      assert LinkAt(graph, w, |w| - 2);
    }

    lemma ReplayAppend(t: QTable, w: Path, v: Node, goal: Node)
      requires Graphs.Valid(graph) && Shaped(graph, t) && |w| >= 1 && IsWalk(graph, w + [v])
      ensures IsWalk(graph, w) && HasEdge(graph, Last(w), v)
      ensures Replay(t, w + [v], goal) == Learn(Replay(t, w, goal), Last(w), v, goal)
    {
      var q := w + [v];
      assert q[..|q| - 1] == w;
      assert q[|q| - 2] == Last(w) && q[|q| - 1] == v;
      ReplayStep(t, q, goal);
    }

    lemma ReplayAllAppend(t: QTable, traces: seq<Path>, w: Path, goal: Node)
      requires Graphs.Valid(graph) && Shaped(graph, t) && IsWalk(graph, w) && Walks(graph, traces)
      ensures Walks(graph, traces + [w])
      ensures ReplayAll(t, traces + [w], goal) == Replay(ReplayAll(t, traces, goal), w, goal)
    {
      var all := traces + [w];
      assert all[..|traces|] == traces;
      assert forall e :: 0 <= e < |traces| ==> all[e] == traces[e];
    }

    /** Replaying a walk moves only the entries of the steps it takes. */
    lemma {:induction false} ReplayOffTrace(t: QTable, w: Path, goal: Node)
      requires Graphs.Valid(graph) && Shaped(graph, t) && IsWalk(graph, w)
      ensures SameOffTrace(t, Replay(t, w, goal), w)
      decreases |w|
    {
      if |w| >= 2 {
        var init, v := w[..|w| - 1], w[|w| - 1];
        assert init + [v] == w;
        WalkPrefix(graph, w);
        ReplayOffTrace(t, init, goal);
        ReplayAppend(t, init, v, goal);
        SameOffTraceExtend(t, Replay(t, init, goal), Replay(t, w, goal), init, v);
      }
    }

    /** With learning rate 0 an episode leaves every entry as it was. */
    lemma {:induction false} ReplayAtRateZero(t: QTable, w: Path, goal: Node)
      requires Graphs.Valid(graph) && Shaped(graph, t) && IsWalk(graph, w) && learningRate == 0.0
      ensures forall s, a :: Entry(Replay(t, w, goal), s, a) == Entry(t, s, a)
      decreases |w|
    {
      if |w| >= 2 {
        var init, v := w[..|w| - 1], w[|w| - 1];
        assert init + [v] == w;
        WalkPrefix(graph, w);
        ReplayAtRateZero(t, init, goal);
        ReplayAppend(t, init, v, goal);
        var t1 := Replay(t, init, goal);
        var s := Last(init);
        assert Entry(Learn(t1, s, v, goal), s, v) == Entry(t1, s, v);
      }
    }

    /** Replaying episodes moves only the entries of steps some episode takes. */
    lemma {:induction false} ReplayAllOffVisited(t: QTable, traces: seq<Path>, goal: Node)
      requires Graphs.Valid(graph) && Shaped(graph, t) && Walks(graph, traces)
      ensures forall s, a :: !Visited(traces, s, a) ==> Entry(ReplayAll(t, traces, goal), s, a) == Entry(t, s, a)
      decreases |traces|
    {
      if traces != [] {
        var init, w := traces[..|traces| - 1], traces[|traces| - 1];
        assert init + [w] == traces;
        WalksPrefix(graph, traces);
        ReplayAllOffVisited(t, init, goal);
        ReplayAllAppend(t, init, w, goal);
        ReplayOffTrace(ReplayAll(t, init, goal), w, goal);
        VisitedAppend(init, w);
      }
    }

    /** The neighbour `get_best_path` moves to from `n`: the first of greatest Q value. */
    function Greedy(n: Node): (a: Node)
      reads this
      requires Valid() && HasNode(graph, n) && |Neighbors(graph, n)| > 0
      ensures a in Neighbors(graph, n)
      ensures forall j :: 0 <= j < |Neighbors(graph, n)| ==> GetQValue(n, Neighbors(graph, n)[j]) <= GetQValue(n, a)
    {
      ShapedKeyed(graph, qTable, n);
      Neighbors(graph, n)[FirstArgMax(qTable[n], Neighbors(graph, n))]
    }

    /** An untrained agent follows the first neighbour of every node. */
    lemma UntrainedFollowsFirstNeighbour(n: Node)
      requires Valid() && qTable == ZeroTable(graph) && HasNode(graph, n) && |Neighbors(graph, n)| > 0
      ensures Greedy(n) == Neighbors(graph, n)[0]
    {
      ShapedKeyed(graph, qTable, n);
      FirstArgMaxOfTies(qTable[n], Neighbors(graph, n), 0.0);
    }

    /** `get_best_path`: from `start`, the greedy neighbour at each step, without revisiting a
        node and with at most 51 nodes. It stops at the goal, at a node without neighbours,
        when the greedy neighbour is already on the path, or at the length limit, and returns
        what it has even when the goal was not reached. */
    method GetBestPath(start: Node, goal: Node) returns (path: Path)
      requires Valid() && (start == goal || HasNode(graph, start))
      ensures 1 <= |path| <= MaxPathLength && path[0] == start && Distinct(path) && IsWalk(graph, path)
      ensures forall i :: 0 <= i < |path| - 1 ==> path[i] != goal && NodeAt(graph, path, i) && |Neighbors(graph, path[i])| > 0
                                                  && path[i + 1] == Greedy(path[i])
      ensures || Last(path) == goal
              || |path| == MaxPathLength
              || (HasNode(graph, Last(path)) && |Neighbors(graph, Last(path))| == 0)
              || (HasNode(graph, Last(path)) && |Neighbors(graph, Last(path))| > 0 && Greedy(Last(path)) in path)
    {
      path := [start];
      var curr := start;
      while curr != goal
        invariant 1 <= |path| < MaxPathLength && path[0] == start && Last(path) == curr
        invariant curr == goal || NodesIn(graph, path)
        invariant Distinct(path) && IsWalk(graph, path)
        invariant forall i :: 0 <= i < |path| - 1 ==> path[i] != goal && NodeAt(graph, path, i) && |Neighbors(graph, path[i])| > 0
                                                      && path[i + 1] == Greedy(path[i])
        decreases MaxPathLength - |path|
      {
        assert NodeAt(graph, path, |path| - 1);
        var nbrs := Neighbors(graph, curr);
        if |nbrs| == 0 {
          break;
        }
        var best := Greedy(curr);
        if best in path {
          break;
        }
        NeighborIsEdge(graph, curr, best);
        WalkExtend(graph, path, best);
        DistinctExtend(path, best);
        path := path + [best];
        curr := best;
        if |path| > 50 {
          break;
        }
      }
    }
  }
}

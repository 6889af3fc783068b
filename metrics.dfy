/**
 The path cost model of Ag_olusturma.py: delay, reliability cost, resource cost,
 reliability, validity and the weighted scalar cost of a node sequence.

 Each metric of the source is a loop updating an accumulator; here each is a method with
 that loop, proved equal to a recursive specification function over the first k links or
 nodes of the path. The specification functions are what the solvers and the lemmas use.
 */
module Metrics {
  import opened Graphs

  // ---------------------------------------------------------------------------
  // Strict attribute lookups (`G.edges[u, v]["key"]`, `G.nodes[n]["key"]`)
  // ---------------------------------------------------------------------------

  function LinkAttrs(g: Graph, p: Path, i: int): EdgeAttrs
    requires LinkAt(g, p, i)
  {
    g.edges[(p[i], p[i + 1])]
  }

  function NodeAttrsAt(g: Graph, p: Path, i: int): NodeAttrs
    requires NodeAt(g, p, i)
  {
    g.nodes[p[i]]
  }

  predicate HasLinkDelay(g: Graph, p: Path, i: int) {
    LinkAt(g, p, i) && LinkAttrs(g, p, i).linkDelay.Some?
  }

  predicate HasProcessingDelay(g: Graph, p: Path, i: int) {
    NodeAt(g, p, i) && NodeAttrsAt(g, p, i).processingDelay.Some?
  }

  /** `math.log` raises on a reliability that is not positive. */
  predicate HasLinkReliability(g: Graph, p: Path, i: int) {
    LinkAt(g, p, i) && LinkAttrs(g, p, i).linkReliability.Some? && LinkAttrs(g, p, i).linkReliability.value > 0.0
  }

  predicate HasNodeReliability(g: Graph, p: Path, i: int) {
    NodeAt(g, p, i) && NodeAttrsAt(g, p, i).nodeReliability.Some? && NodeAttrsAt(g, p, i).nodeReliability.value > 0.0
  }

  /** `1000 / bw` raises on a zero bandwidth. */
  predicate HasBandwidth(g: Graph, p: Path, i: int) {
    LinkAt(g, p, i) && LinkAttrs(g, p, i).bandwidth.Some? && LinkAttrs(g, p, i).bandwidth.value != 0.0
  }

  /** What `total_delay` looks up: every link's delay and every interior node's processing delay. */
  predicate DelayDefined(g: Graph, p: Path) {
    && (forall i :: 0 <= i < |p| - 1 ==> HasLinkDelay(g, p, i))
    && (forall i :: 0 < i < |p| - 1 ==> HasProcessingDelay(g, p, i))
  }

  /** What `reliability_cost` looks up: every link's and every node's reliability. */
  predicate ReliabilityDefined(g: Graph, p: Path) {
    && (forall i :: 0 <= i < |p| - 1 ==> HasLinkReliability(g, p, i))
    && (forall i :: 0 <= i < |p| ==> HasNodeReliability(g, p, i))
  }

  /** What `resource_cost` looks up: every link's bandwidth. */
  predicate ResourceDefined(g: Graph, p: Path) {
    forall i :: 0 <= i < |p| - 1 ==> HasBandwidth(g, p, i)
  }

  predicate MetricsDefined(g: Graph, p: Path) {
    DelayDefined(g, p) && ReliabilityDefined(g, p) && ResourceDefined(g, p)
  }

  /** Every attribute the three metrics look up is present and usable, for every walk. */
  ghost predicate Scorable(g: Graph) {
    && (forall n :: n in g.nodes ==> g.nodes[n].processingDelay.Some? && g.nodes[n].nodeReliability.Some? && g.nodes[n].nodeReliability.value > 0.0)
    && (forall e :: e in g.edges ==> g.edges[e].linkDelay.Some? && g.edges[e].linkReliability.Some? && g.edges[e].linkReliability.value > 0.0
                                     && g.edges[e].bandwidth.Some? && g.edges[e].bandwidth.value != 0.0)
  }

  lemma InRangeIsScorable(g: Graph)
    requires InRange(g)
    ensures Scorable(g)
  {
    forall e | e in g.edges
      ensures g.edges[e].bandwidth.Some? && g.edges[e].bandwidth.value != 0.0
    {
      assert EdgeInRange(g.edges[e]);
    }
  }

  lemma {:induction false} ScorableWalkMetricsDefined(g: Graph, p: Path)
    requires Scorable(g) && IsWalk(g, p) && NodesIn(g, p)
    ensures MetricsDefined(g, p)
  {
    forall i | 0 <= i < |p| - 1
      ensures HasLinkDelay(g, p, i) && HasLinkReliability(g, p, i) && HasBandwidth(g, p, i)
    {
      assert LinkAt(g, p, i);
      assert (p[i], p[i + 1]) in g.edges;
    }
    forall i | 0 <= i < |p|
      ensures HasProcessingDelay(g, p, i) && HasNodeReliability(g, p, i)
    {
      assert NodeAt(g, p, i);
    }
  }

  function LinkDelayAt(g: Graph, p: Path, i: int): real
    requires HasLinkDelay(g, p, i)
  {
    LinkAttrs(g, p, i).linkDelay.value
  }

  function ProcessingDelayAt(g: Graph, p: Path, i: int): real
    requires HasProcessingDelay(g, p, i)
  {
    NodeAttrsAt(g, p, i).processingDelay.value
  }

  function LinkReliabilityAt(g: Graph, p: Path, i: int): real
    requires HasLinkReliability(g, p, i)
  {
    LinkAttrs(g, p, i).linkReliability.value
  }

  function NodeReliabilityAt(g: Graph, p: Path, i: int): real
    requires HasNodeReliability(g, p, i)
  {
    NodeAttrsAt(g, p, i).nodeReliability.value
  }

  function BandwidthAt(g: Graph, p: Path, i: int): real
    requires HasBandwidth(g, p, i)
  {
    LinkAttrs(g, p, i).bandwidth.value
  }

  // ---------------------------------------------------------------------------
  // total_delay
  // ---------------------------------------------------------------------------

  /** Sum of the delays of the first k links. */
  function LinkDelayUpTo(g: Graph, p: Path, k: nat): real
    requires k <= LinkCount(p) && DelayDefined(g, p)
  {
    if k == 0 then 0.0 else LinkDelayUpTo(g, p, k - 1) + LinkDelayAt(g, p, k - 1)
  }

  /** Sum of the processing delays of the nodes at positions 1 .. k-1. */
  function ProcessingUpTo(g: Graph, p: Path, k: nat): real
    requires k <= LinkCount(p) && DelayDefined(g, p)
  {
    if k <= 1 then 0.0 else ProcessingUpTo(g, p, k - 1) + ProcessingDelayAt(g, p, k - 1)
  }

  /** Link delays over all consecutive pairs plus processing delays of the interior
      nodes (source and target excluded); 0 for fewer than two nodes. */
  function PathDelay(g: Graph, p: Path): real
    requires DelayDefined(g, p)
  {
    if |p| < 2 then 0.0 else LinkDelayUpTo(g, p, |p| - 1) + ProcessingUpTo(g, p, |p| - 1)
  }

  method TotalDelay(g: Graph, path: Option<Path>) returns (total: real)
    requires path.Some? ==> DelayDefined(g, path.value)
    ensures path.None? || |path.value| < 2 ==> total == 0.0
    ensures path.Some? ==> total == PathDelay(g, path.value)
  {
    if path.None? || |path.value| < 2 {
      return 0.0;
    }
    var p := path.value;
    total := 0.0;
    for i := 0 to |p| - 1
      invariant total == LinkDelayUpTo(g, p, i)
    {
      total := total + LinkDelayAt(g, p, i);
    }
    for i := 1 to |p| - 1
      invariant total == LinkDelayUpTo(g, p, |p| - 1) + ProcessingUpTo(g, p, i)
    {
      total := total + ProcessingDelayAt(g, p, i);
    }
  }

  lemma {:induction false} LinkDelayUpToNonNeg(g: Graph, p: Path, k: nat)
    requires k <= LinkCount(p) && DelayDefined(g, p) && InRange(g)
    ensures LinkDelayUpTo(g, p, k) >= 0.0
  {
    if k > 0 {
      LinkDelayUpToNonNeg(g, p, k - 1);
      assert HasLinkDelay(g, p, k - 1);
      assert EdgeInRange(LinkAttrs(g, p, k - 1));
    }
  }

  lemma {:induction false} ProcessingUpToNonNeg(g: Graph, p: Path, k: nat)
    requires k <= LinkCount(p) && DelayDefined(g, p) && InRange(g)
    ensures ProcessingUpTo(g, p, k) >= 0.0
  {
    if k > 1 {
      ProcessingUpToNonNeg(g, p, k - 1);
      assert HasProcessingDelay(g, p, k - 1);
      assert NodeInRange(NodeAttrsAt(g, p, k - 1));
    }
  }

  /** With the attributes in range, the delay of a path is never negative. */
  lemma PathDelayNonNeg(g: Graph, p: Path)
    requires DelayDefined(g, p) && InRange(g)
    ensures PathDelay(g, p) >= 0.0
  {
    if |p| >= 2 {
      LinkDelayUpToNonNeg(g, p, |p| - 1);
      ProcessingUpToNonNeg(g, p, |p| - 1);
    }
  }

  // ---------------------------------------------------------------------------
  // reliability_cost
  // ---------------------------------------------------------------------------

  function LinkRelCostUpTo(g: Graph, negLog: real -> real, p: Path, k: nat): real
    requires k <= LinkCount(p) && ReliabilityDefined(g, p)
  {
    if k == 0 then 0.0 else LinkRelCostUpTo(g, negLog, p, k - 1) + negLog(LinkReliabilityAt(g, p, k - 1))
  }

  /** `acc` plus -ln of the reliabilities of the first k nodes. */
  function NodeRelCostUpTo(g: Graph, negLog: real -> real, p: Path, k: nat, acc: real): real
    requires k <= |p| && ReliabilityDefined(g, p)
  {
    if k == 0 then acc else NodeRelCostUpTo(g, negLog, p, k - 1, acc) + negLog(NodeReliabilityAt(g, p, k - 1))
  }

  /** -ln of every link reliability plus -ln of every node reliability, endpoints included. */
  function PathReliabilityCost(g: Graph, negLog: real -> real, p: Path): real
    requires ReliabilityDefined(g, p)
  {
    NodeRelCostUpTo(g, negLog, p, |p|, LinkRelCostUpTo(g, negLog, p, LinkCount(p)))
  }

  method ReliabilityCost(g: Graph, negLog: real -> real, p: Path) returns (cost: real)
    requires ReliabilityDefined(g, p)
    ensures cost == PathReliabilityCost(g, negLog, p)
    ensures |p| == 1 ==> cost == negLog(NodeReliabilityAt(g, p, 0))
  {
    cost := 0.0;
    for i := 0 to LinkCount(p)
      invariant cost == LinkRelCostUpTo(g, negLog, p, i)
    {
      cost := cost + negLog(LinkReliabilityAt(g, p, i));
    }
    ghost var links := cost;
    for i := 0 to |p|
      invariant cost == NodeRelCostUpTo(g, negLog, p, i, links)
    {
      cost := cost + negLog(NodeReliabilityAt(g, p, i));
    }
  }

  lemma {:induction false} LinkRelCostUpToNonNeg(g: Graph, negLog: real -> real, p: Path, k: nat)
    requires k <= LinkCount(p) && ReliabilityDefined(g, p) && InRange(g) && NegLogLaws(negLog)
    ensures LinkRelCostUpTo(g, negLog, p, k) >= 0.0
  {
    if k > 0 {
      LinkRelCostUpToNonNeg(g, negLog, p, k - 1);
      assert HasLinkReliability(g, p, k - 1);
      assert EdgeInRange(LinkAttrs(g, p, k - 1));
      assert 0.0 < LinkReliabilityAt(g, p, k - 1) <= 1.0;
    }
  }

  lemma {:induction false} NodeRelCostUpToNonNeg(g: Graph, negLog: real -> real, p: Path, k: nat, acc: real)
    requires k <= |p| && ReliabilityDefined(g, p) && InRange(g) && NegLogLaws(negLog) && acc >= 0.0
    ensures NodeRelCostUpTo(g, negLog, p, k, acc) >= 0.0
  {
    if k > 0 {
      NodeRelCostUpToNonNeg(g, negLog, p, k - 1, acc);
      assert HasNodeReliability(g, p, k - 1);
      assert NodeInRange(NodeAttrsAt(g, p, k - 1));
      assert 0.0 < NodeReliabilityAt(g, p, k - 1) <= 1.0;
    }
  }

  /** Reliabilities in (0, 1] make every -ln term, and so the reliability cost, non-negative. */
  lemma PathReliabilityCostNonNeg(g: Graph, negLog: real -> real, p: Path)
    requires ReliabilityDefined(g, p) && InRange(g) && NegLogLaws(negLog)
    ensures PathReliabilityCost(g, negLog, p) >= 0.0
  {
    LinkRelCostUpToNonNeg(g, negLog, p, LinkCount(p));
    NodeRelCostUpToNonNeg(g, negLog, p, |p|, LinkRelCostUpTo(g, negLog, p, LinkCount(p)));
  }

  // ---------------------------------------------------------------------------
  // resource_cost
  // ---------------------------------------------------------------------------

  function ResourceUpTo(g: Graph, p: Path, k: nat): real
    requires k <= LinkCount(p) && ResourceDefined(g, p)
  {
    if k == 0 then 0.0 else ResourceUpTo(g, p, k - 1) + 1000.0 / BandwidthAt(g, p, k - 1)
  }

  /** Sum of 1000 / bandwidth over the links of the path. */
  function PathResourceCost(g: Graph, p: Path): real
    requires ResourceDefined(g, p)
  {
    ResourceUpTo(g, p, LinkCount(p))
  }

  method ResourceCost(g: Graph, p: Path) returns (cost: real)
    requires ResourceDefined(g, p)
    ensures cost == PathResourceCost(g, p)
    ensures |p| < 2 ==> cost == 0.0
  {
    cost := 0.0;
    for i := 0 to LinkCount(p)
      invariant cost == ResourceUpTo(g, p, i)
    {
      cost := cost + 1000.0 / BandwidthAt(g, p, i);
    }
  }

  lemma {:induction false} ResourceUpToNonNeg(g: Graph, p: Path, k: nat)
    requires k <= LinkCount(p) && ResourceDefined(g, p) && InRange(g)
    ensures ResourceUpTo(g, p, k) >= 0.0
  {
    if k > 0 {
      ResourceUpToNonNeg(g, p, k - 1);
      assert HasBandwidth(g, p, k - 1);
      assert EdgeInRange(LinkAttrs(g, p, k - 1));
      assert BandwidthAt(g, p, k - 1) > 0.0;
    }
  }

  /** Positive bandwidths make the resource cost non-negative. */
  lemma PathResourceCostNonNeg(g: Graph, p: Path)
    requires ResourceDefined(g, p) && InRange(g)
    ensures PathResourceCost(g, p) >= 0.0
  {
    ResourceUpToNonNeg(g, p, LinkCount(p));
  }

  // ---------------------------------------------------------------------------
  // total_reliability (lookups with a default of 1.0)
  // ---------------------------------------------------------------------------

  function LinkRelProductUpTo(g: Graph, p: Path, k: nat): real
    requires k <= LinkCount(p) && IsWalk(g, p)
  {
    if k == 0 then 1.0
    else
      assert LinkAt(g, p, k - 1);
      LinkRelProductUpTo(g, p, k - 1) * GetOr(LinkAttrs(g, p, k - 1).linkReliability, 1.0)
  }

  /** `acc` times the reliabilities of the first k nodes. */
  function NodeRelProductUpTo(g: Graph, p: Path, k: nat, acc: real): real
    requires k <= |p| && NodesIn(g, p)
  {
    if k == 0 then acc
    else
      assert NodeAt(g, p, k - 1);
      NodeRelProductUpTo(g, p, k - 1, acc) * GetOr(NodeAttrsAt(g, p, k - 1).nodeReliability, 1.0)
  }

  /** 0 when some consecutive pair is not a link; otherwise the product of every link and
      every node reliability, a missing one counting as 1. */
  function PathReliability(g: Graph, p: Path): real
    requires Valid(g) && (|p| == 1 ==> HasNode(g, p[0]))
  {
    if !IsWalk(g, p) then 0.0
    else
      assert NodesIn(g, p) by {
        if |p| >= 2 { WalkNodesIn(g, p); } else if |p| == 1 { assert NodeAt(g, p, 0); }
      }
      NodeRelProductUpTo(g, p, |p|, LinkRelProductUpTo(g, p, LinkCount(p)))
  }

  method TotalReliability(g: Graph, p: Path) returns (reliability: real)
    requires Valid(g) && (|p| == 1 ==> HasNode(g, p[0]))
    ensures reliability == PathReliability(g, p)
    ensures !IsWalk(g, p) ==> reliability == 0.0
  {
    reliability := 1.0;
    for i := 0 to LinkCount(p)
      invariant forall k :: 0 <= k < i ==> LinkAt(g, p, k)
      invariant IsWalk(g, p) ==> reliability == LinkRelProductUpTo(g, p, i)
    {
      if !HasEdge(g, p[i], p[i + 1]) {
        assert !LinkAt(g, p, i);
        return 0.0;
      }
      reliability := reliability * GetOr(g.edges[(p[i], p[i + 1])].linkReliability, 1.0);
    }
    assert IsWalk(g, p);
    assert NodesIn(g, p) by {
      if |p| >= 2 { WalkNodesIn(g, p); } else if |p| == 1 { assert NodeAt(g, p, 0); }
    }
    ghost var links := reliability;
    for i := 0 to |p|
      invariant reliability == NodeRelProductUpTo(g, p, i, links)
    {
      assert NodeAt(g, p, i);
      reliability := reliability * GetOr(g.nodes[p[i]].nodeReliability, 1.0);
    }
  }

  /** Every reliability that is present lies in [0, 1]. */
  ghost predicate ReliabilitiesInUnit(g: Graph) {
    && (forall n :: n in g.nodes && g.nodes[n].nodeReliability.Some? ==> 0.0 <= g.nodes[n].nodeReliability.value <= 1.0)
    && (forall e :: e in g.edges && g.edges[e].linkReliability.Some? ==> 0.0 <= g.edges[e].linkReliability.value <= 1.0)
  }

  lemma UnitProduct(a: real, b: real)
    requires 0.0 <= a <= 1.0 && 0.0 <= b <= 1.0
    ensures 0.0 <= a * b <= 1.0
  {
    NonNegProduct(a, b);
    NonNegProduct(1.0 - a, b);
    assert (1.0 - a) * b == b - a * b;
  }

  lemma NonNegProduct(a: real, b: real)
    requires 0.0 <= a && 0.0 <= b
    ensures 0.0 <= a * b
  {
    if a != 0.0 && b != 0.0 {
      PositiveProduct(a, b);
    }
  }

  lemma PositiveProduct(a: real, b: real)
    requires 0.0 < a && 0.0 < b
    ensures 0.0 < a * b
  {
  }

  lemma {:induction false} LinkRelProductInUnit(g: Graph, p: Path, k: nat)
    requires k <= LinkCount(p) && IsWalk(g, p) && ReliabilitiesInUnit(g)
    ensures 0.0 <= LinkRelProductUpTo(g, p, k) <= 1.0
  {
    if k > 0 {
      LinkRelProductInUnit(g, p, k - 1);
      assert LinkAt(g, p, k - 1);
      UnitProduct(LinkRelProductUpTo(g, p, k - 1), GetOr(LinkAttrs(g, p, k - 1).linkReliability, 1.0));
    }
  }

  lemma {:induction false} NodeRelProductInUnit(g: Graph, p: Path, k: nat, acc: real)
    requires k <= |p| && NodesIn(g, p) && ReliabilitiesInUnit(g) && 0.0 <= acc <= 1.0
    ensures 0.0 <= NodeRelProductUpTo(g, p, k, acc) <= 1.0
  {
    if k > 0 {
      NodeRelProductInUnit(g, p, k - 1, acc);
      assert NodeAt(g, p, k - 1);
      UnitProduct(NodeRelProductUpTo(g, p, k - 1, acc), GetOr(NodeAttrsAt(g, p, k - 1).nodeReliability, 1.0));
    }
  }

  /** A product of probabilities is a probability. */
  lemma PathReliabilityInUnit(g: Graph, p: Path)
    requires Valid(g) && (|p| == 1 ==> HasNode(g, p[0])) && ReliabilitiesInUnit(g)
    ensures 0.0 <= PathReliability(g, p) <= 1.0
  {
    if IsWalk(g, p) {
      assert NodesIn(g, p) by {
        if |p| >= 2 { WalkNodesIn(g, p); } else if |p| == 1 { assert NodeAt(g, p, 0); }
      }
      LinkRelProductInUnit(g, p, LinkCount(p));
      NodeRelProductInUnit(g, p, |p|, LinkRelProductUpTo(g, p, LinkCount(p)));
    }
  }

  lemma {:induction false} LinkRelCostIsNegLogOfProduct(g: Graph, negLog: real -> real, p: Path, k: nat)
    requires k <= LinkCount(p) && ReliabilityDefined(g, p) && IsWalk(g, p) && NegLogLaws(negLog)
    ensures LinkRelProductUpTo(g, p, k) > 0.0
    ensures LinkRelCostUpTo(g, negLog, p, k) == negLog(LinkRelProductUpTo(g, p, k))
  {
    if k == 0 {
      NegLogOfOne(negLog);
    } else {
      LinkRelCostIsNegLogOfProduct(g, negLog, p, k - 1);
      assert HasLinkReliability(g, p, k - 1);
      var a, r := LinkRelProductUpTo(g, p, k - 1), LinkReliabilityAt(g, p, k - 1);
      assert LinkRelProductUpTo(g, p, k) == a * r && r > 0.0 by {
        assert LinkAt(g, p, k - 1);
        assert GetOr(LinkAttrs(g, p, k - 1).linkReliability, 1.0) == r;
      }
      PositiveProduct(a, r);
      NegLogOfProduct(negLog, a, r);
    }
  }

  lemma {:induction false} NodeRelCostIsNegLogOfProduct(g: Graph, negLog: real -> real, p: Path, k: nat, acc: real)
    requires k <= |p| && ReliabilityDefined(g, p) && NodesIn(g, p) && NegLogLaws(negLog) && acc > 0.0
    ensures NodeRelProductUpTo(g, p, k, acc) > 0.0
    ensures NodeRelCostUpTo(g, negLog, p, k, negLog(acc)) == negLog(NodeRelProductUpTo(g, p, k, acc))
  {
    if k > 0 {
      NodeRelCostIsNegLogOfProduct(g, negLog, p, k - 1, acc);
      assert HasNodeReliability(g, p, k - 1);
      var a, r := NodeRelProductUpTo(g, p, k - 1, acc), NodeReliabilityAt(g, p, k - 1);
      assert NodeRelProductUpTo(g, p, k, acc) == a * r && r > 0.0 by {
        assert NodeAt(g, p, k - 1);
        assert GetOr(NodeAttrsAt(g, p, k - 1).nodeReliability, 1.0) == r;
      }
      PositiveProduct(a, r);
      NegLogOfProduct(negLog, a, r);
    }
  }

  /** The reliability cost of a walk is -ln of its reliability: the logarithm turns the
      product of `total_reliability` into the sum of `reliability_cost`. */
  lemma ReliabilityCostIsNegLogOfReliability(g: Graph, negLog: real -> real, p: Path)
    requires Valid(g) && IsWalk(g, p) && ReliabilityDefined(g, p) && NegLogLaws(negLog)
    ensures |p| == 1 ==> HasNode(g, p[0])
    ensures PathReliability(g, p) > 0.0
    ensures PathReliabilityCost(g, negLog, p) == negLog(PathReliability(g, p))
  {
    assert NodesIn(g, p) by {
      forall i | 0 <= i < |p| ensures NodeAt(g, p, i) { assert HasNodeReliability(g, p, i); }
    }
    if |p| == 1 { assert NodeAt(g, p, 0); }
    LinkRelCostIsNegLogOfProduct(g, negLog, p, LinkCount(p));
    NodeRelCostIsNegLogOfProduct(g, negLog, p, |p|, LinkRelProductUpTo(g, p, LinkCount(p)));
  }

  // ---------------------------------------------------------------------------
  // is_valid_path
  // ---------------------------------------------------------------------------

  /** The i-th pair is a link and, when a minimum is given, its bandwidth (0 when missing)
      reaches it. */
  predicate LinkValid(g: Graph, p: Path, i: int, minBandwidth: Option<real>) {
    && LinkAt(g, p, i)
    && (minBandwidth.Some? ==> GetOr(LinkAttrs(g, p, i).bandwidth, 0.0) >= minBandwidth.value)
  }

  predicate ValidPath(g: Graph, p: Path, minBandwidth: Option<real>) {
    && |p| >= 2
    && NodesIn(g, p)
    && forall i :: 0 <= i < |p| - 1 ==> LinkValid(g, p, i, minBandwidth)
  }

  method IsValidPath(g: Graph, p: Path, minBandwidth: Option<real>) returns (valid: bool)
    ensures valid == ValidPath(g, p, minBandwidth)
    ensures |p| < 2 ==> !valid
  {
    if |p| < 2 {
      return false;
    }
    for i := 0 to |p|
      invariant forall k :: 0 <= k < i ==> NodeAt(g, p, k)
    {
      if p[i] !in g.nodes {
        assert !NodeAt(g, p, i);
        return false;
      }
    }
    for i := 0 to |p| - 1
      invariant forall k :: 0 <= k < i ==> LinkValid(g, p, k, minBandwidth)
    {
      if !HasEdge(g, p[i], p[i + 1]) {
        assert !LinkValid(g, p, i, minBandwidth);
        return false;
      }
      if minBandwidth.Some? {
        var bw := GetOr(g.edges[(p[i], p[i + 1])].bandwidth, 0.0);
        if bw < minBandwidth.value {
          assert !LinkValid(g, p, i, minBandwidth);
          return false;
        }
      }
    }
    return true;
  }

  lemma ValidPathIsWalk(g: Graph, p: Path, minBandwidth: Option<real>)
    requires ValidPath(g, p, minBandwidth)
    ensures IsWalk(g, p) && NodesIn(g, p) && |p| >= 2
  {
    forall i | 0 <= i < |p| - 1 ensures LinkAt(g, p, i) { assert LinkValid(g, p, i, minBandwidth); }
  }

  /** Lowering the bandwidth bound, or dropping it, keeps a path valid. */
  lemma ValidPathMonotone(g: Graph, p: Path, b: real, b': real)
    requires ValidPath(g, p, Some(b)) && b' <= b
    ensures ValidPath(g, p, Some(b'))
    ensures ValidPath(g, p, None)
  {
    forall i | 0 <= i < |p| - 1 ensures LinkValid(g, p, i, Some(b')) && LinkValid(g, p, i, None) {
      assert LinkValid(g, p, i, Some(b));
    }
  }

  // ---------------------------------------------------------------------------
  // weighted_sum_method
  // ---------------------------------------------------------------------------

  const DefaultWeights := Weights(0.33, 0.33, 0.34)

  /** The scalar objective every solver minimises: the user-weighted sum of the three metrics.
      Putting the whole weight on one metric gives that metric alone. */
  function WeightedSum(g: Graph, negLog: real -> real, p: Path, w: Weights): (r: real)
    requires MetricsDefined(g, p)
    ensures w == Weights(1.0, 0.0, 0.0) ==> r == PathDelay(g, p)
    ensures w == Weights(0.0, 1.0, 0.0) ==> r == PathReliabilityCost(g, negLog, p)
    ensures w == Weights(0.0, 0.0, 1.0) ==> r == PathResourceCost(g, p)
  {
    w.delay * PathDelay(g, p) + w.reliability * PathReliabilityCost(g, negLog, p) + w.resource * PathResourceCost(g, p)
  }

  /** The scalar objective of a walk in a scorable graph, where every lookup succeeds. */
  function PathScore(g: Graph, negLog: real -> real, p: Path, w: Weights): real
    requires Scorable(g) && IsWalk(g, p) && NodesIn(g, p)
  {
    ScorableWalkMetricsDefined(g, p);
    WeightedSum(g, negLog, p, w)
  }

  /** Non-negative weights over in-range attributes give a non-negative scalar cost. */
  lemma WeightedSumNonNeg(g: Graph, negLog: real -> real, p: Path, w: Weights)
    requires MetricsDefined(g, p) && NonNegWeights(w) && InRange(g) && NegLogLaws(negLog)
    ensures WeightedSum(g, negLog, p, w) >= 0.0
  {
    PathDelayNonNeg(g, p);
    PathReliabilityCostNonNeg(g, negLog, p);
    PathResourceCostNonNeg(g, p);
    NonNegProduct(w.delay, PathDelay(g, p));
    NonNegProduct(w.reliability, PathReliabilityCost(g, negLog, p));
    NonNegProduct(w.resource, PathResourceCost(g, p));
  }
}

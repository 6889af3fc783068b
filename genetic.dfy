/**
 The genetic solver. A population of random walks from the source to the target evolves
 over a number of generations: two parents are picked by tournament, crossed over at a
 shared interior node, possibly mutated at one position, and the child joins the next
 generation only if it is still a valid path. The best fitness 1 / (1 + cost) seen in any
 generation is kept.

 Random draws are oracle parameters of the functions and `:|` choices in the methods: the
 model states which outcomes are possible, not their probabilities.
 */
module Genetic {
  import opened Graphs
  import opened Metrics

  const Attempts: nat := 30
  const DefaultMaxHops: nat := 6
  const TournamentSize: nat := 3

  // ---------------------------------------------------------------------------
  // random_path and create_population
  // ---------------------------------------------------------------------------

  /** A walk as `random_path` returns it: at most `maxHops` links, from `s`, stopping the first
      time it reaches `t` after the start. It may revisit other nodes. */
  predicate HopWalk(g: Graph, p: Path, s: Node, t: Node, maxHops: nat) {
    && 2 <= |p| <= maxHops + 1 && p[0] == s && Last(p) == t
    && IsWalk(g, p) && NodesIn(g, p)
    && forall i :: 0 < i < |p| - 1 ==> p[i] != t
  }

  /** A walk of fewer than `maxHops` links from `s`, not at `t` after the start, ending at a
      node without neighbours: the next `random.choice` raises. */
  predicate Stranded(g: Graph, w: Path, s: Node, t: Node, maxHops: nat) {
    && 1 <= |w| <= maxHops && w[0] == s
    && IsWalk(g, w) && NodesIn(g, w)
    && (forall i :: 0 < i < |w| ==> w[i] != t)
    && g.adj.Keys == g.nodes.Keys && HasNode(g, Last(w)) && |Neighbors(g, Last(w))| == 0
  }

  /** A walk of exactly `maxHops` links from `s` that never reaches `t` after the start: an
      attempt of `random_path` that runs out of hops. */
  predicate Missed(g: Graph, w: Path, s: Node, t: Node, maxHops: nat) {
    && |w| == maxHops + 1 && w[0] == s
    && IsWalk(g, w) && NodesIn(g, w)
    && forall i :: 0 < i < |w| ==> w[i] != t
  }

  /** Up to 30 random walks of up to `maxHops` links; the first that reaches `target` is
      returned, and `None` when none does. A walk that strands at a node without neighbours
      raises. */
  method RandomPath(source: Node, target: Node, g: Graph, maxHops: nat) returns (r: Result<Option<Path>>)
    requires Valid(g) && HasNode(g, source)
    ensures r.Ok? && r.value.Some? ==> HopWalk(g, r.value.value, source, target, maxHops)
    ensures r.Err? ==> r.error == EmptySequence && exists w :: Stranded(g, w, source, target, maxHops)
    ensures r == Ok(None) ==> exists w :: Missed(g, w, source, target, maxHops)
    ensures maxHops == 0 ==> r == Ok(None)
  {
    ghost var missed: Path := [source];
    for attempt := 0 to Attempts
      invariant attempt > 0 ==> Missed(g, missed, source, target, maxHops)
    {
      var path := [source];
      var current := source;
      for hop := 0 to maxHops
        invariant |path| == hop + 1 && path[0] == source && Last(path) == current
        invariant IsWalk(g, path) && NodesIn(g, path) && HasNode(g, current)
        invariant forall i :: 0 < i < |path| ==> path[i] != target
      {
        var nbrs := Neighbors(g, current);
        if |nbrs| == 0 {
          assert Stranded(g, path, source, target, maxHops);
          return Err(EmptySequence);
        }
        var k: nat :| k < |nbrs|;
        var next := nbrs[k];
        NeighborIsEdge(g, current, next);
        WalkExtend(g, path, next);
        path := path + [next];
        current := next;
        if current == target {
          return Ok(Some(path));
        }
      }
      missed := path;
    }
    return Ok(None);
  }

  /** A path from `s` to `t` that `is_valid_path` accepts. */
  predicate Route(g: Graph, p: Path, s: Node, t: Node) {
    ValidPath(g, p, None) && p[0] == s && Last(p) == t
  }

  /** Without a bandwidth bound, `is_valid_path` accepts exactly the walks of two or more nodes. */
  lemma WalkIsValid(g: Graph, p: Path)
    requires IsWalk(g, p) && NodesIn(g, p) && |p| >= 2
    ensures ValidPath(g, p, None)
  {
    forall i | 0 <= i < |p| - 1 ensures LinkValid(g, p, i, None) {
      assert LinkAt(g, p, i);
    }
  }

  lemma HopWalkIsRoute(g: Graph, p: Path, s: Node, t: Node, maxHops: nat)
    requires HopWalk(g, p, s, t, maxHops)
    ensures Route(g, p, s, t)
  {
    WalkIsValid(g, p);
  }

  /** `size` random walks, each a route from `source` to `target`. The source loops until
      enough walks succeed; `fuel` bounds the number of attempts. */
  method CreatePopulation(size: nat, source: Node, target: Node, g: Graph, fuel: nat) returns (r: Result<seq<Path>>)
    requires Valid(g) && HasNode(g, source)
    ensures r.Ok? ==> |r.value| == size
    ensures r.Ok? ==> forall j :: 0 <= j < |r.value| ==> HopWalk(g, r.value[j], source, target, DefaultMaxHops) && Route(g, r.value[j], source, target)
    ensures r.Err? ==> r.error == EmptySequence || r.error == OutOfFuel
    ensures r == Err(EmptySequence) ==> exists w :: Stranded(g, w, source, target, DefaultMaxHops)
    ensures r == Err(OutOfFuel) ==> fuel < size || exists w :: Missed(g, w, source, target, DefaultMaxHops)
  {
    var population: seq<Path> := [];
    var budget: nat := fuel;
    // every attempt so far has succeeded, unless one returned `None`
    ghost var anyMissed := false;
    while |population| < size
      invariant |population| <= size && budget <= fuel
      invariant forall j :: 0 <= j < |population| ==> HopWalk(g, population[j], source, target, DefaultMaxHops) && Route(g, population[j], source, target)
      invariant !anyMissed ==> |population| == fuel - budget
      invariant anyMissed ==> exists w :: Missed(g, w, source, target, DefaultMaxHops)
      decreases budget
    {
      if budget == 0 {
        return Err(OutOfFuel);
      }
      budget := budget - 1;
      var p := RandomPath(source, target, g, DefaultMaxHops);
      if p.Err? {
        return Err(p.error);
      }
      if p.value.Some? {
        HopWalkIsRoute(g, p.value.value, source, target, DefaultMaxHops);
        var valid := IsValidPath(g, p.value.value, None);
        if valid {
          population := population + [p.value.value];
        }
      } else {
        anyMissed := true;
      }
    }
    return Ok(population);
  }

  // ---------------------------------------------------------------------------
  // fitness
  // ---------------------------------------------------------------------------

  function FitnessOfCost(cost: real): (f: real)
    requires cost != -1.0
    ensures f * (1.0 + cost) == 1.0
  {
    1.0 / (1.0 + cost)
  }

  /** A non-negative cost has a fitness in (0, 1], and 1 exactly at cost 0. */
  lemma FitnessOfCostInUnit(c: real)
    requires c >= 0.0
    ensures 0.0 < FitnessOfCost(c) <= 1.0
    ensures FitnessOfCost(c) == 1.0 <==> c == 0.0
  {
    var f := FitnessOfCost(c);
    assert f * (1.0 + c) == 1.0;
    NonNegProduct(f, c);
  }

  /** Fitness ranks non-negative costs in reverse: a higher fitness is exactly a lower cost. */
  lemma FitnessOfCostOrder(c1: real, c2: real)
    requires c1 >= 0.0 && c2 >= 0.0
    ensures FitnessOfCost(c1) > FitnessOfCost(c2) <==> c1 < c2
  {
    var f1, f2 := FitnessOfCost(c1), FitnessOfCost(c2);
    assert f1 * (1.0 + c1) == 1.0 && f2 * (1.0 + c2) == 1.0;
    FitnessOfCostInUnit(c1);
    FitnessOfCostInUnit(c2);
    if c1 < c2 {
      PositiveProduct(f2, c2 - c1);
      assert f2 * (1.0 + c1) < 1.0;
      assert (f1 - f2) * (1.0 + c1) > 0.0;
      PositiveFactor(f1 - f2, 1.0 + c1);
    } else {
      NonNegProduct(f1, c1 - c2);
      assert f1 * (1.0 + c2) <= 1.0;
      assert (f2 - f1) * (1.0 + c2) >= 0.0;
      NonNegFactorOf(f2 - f1, 1.0 + c2);
    }
  }

  lemma PositiveFactor(x: real, m: real)
    requires m > 0.0 && x * m > 0.0
    ensures x > 0.0
  {
  }

  lemma NonNegFactorOf(x: real, m: real)
    requires m > 0.0 && x * m >= 0.0
    ensures x >= 0.0
  {
  }

  /** `fitness`: 0 for no path, otherwise the inverse of one plus the default weighted cost.
      A cost of -1 would divide by zero and is excluded. */
  function Fitness(g: Graph, negLog: real -> real, path: Option<Path>): (f: real)
    requires path.Some? ==> MetricsDefined(g, path.value) && WeightedSum(g, negLog, path.value, DefaultWeights) != -1.0
    ensures path.None? ==> f == 0.0
    ensures path.Some? ==> f * (1.0 + WeightedSum(g, negLog, path.value, DefaultWeights)) == 1.0
    ensures path.Some? && WeightedSum(g, negLog, path.value, DefaultWeights) >= 0.0 ==> 0.0 < f <= 1.0
  {
    match path
    case None => 0.0
    case Some(p) =>
      var c := WeightedSum(g, negLog, p, DefaultWeights);
      assert c >= 0.0 ==> 0.0 < FitnessOfCost(c) <= 1.0 by {
        if c >= 0.0 { FitnessOfCostInUnit(c); }
      }
      FitnessOfCost(c)
  }

  /** A path whose metrics are defined and whose default weighted cost is non-negative. */
  ghost predicate Scored(g: Graph, negLog: real -> real, p: Path) {
    MetricsDefined(g, p) && WeightedSum(g, negLog, p, DefaultWeights) >= 0.0
  }

  /** What every member of every generation is. */
  ghost predicate Member(g: Graph, negLog: real -> real, p: Path, s: Node, t: Node) {
    Route(g, p, s, t) && Scored(g, negLog, p)
  }

  ghost predicate AllScored(g: Graph, negLog: real -> real, ps: seq<Path>) {
    forall j :: 0 <= j < |ps| ==> Scored(g, negLog, ps[j])
  }

  /** Every path of `ps` is a member. */
  ghost predicate Members(g: Graph, negLog: real -> real, ps: seq<Path>, s: Node, t: Node) {
    forall j :: 0 <= j < |ps| ==> Member(g, negLog, ps[j], s, t)
  }

  lemma MembersAppend(g: Graph, negLog: real -> real, ps: seq<Path>, p: Path, s: Node, t: Node)
    requires Members(g, negLog, ps, s, t) && Member(g, negLog, p, s, t)
    ensures Members(g, negLog, ps + [p], s, t)
  {
    var q := ps + [p];
    assert forall j :: 0 <= j < |ps| ==> q[j] == ps[j];
  }

  lemma MembersScored(g: Graph, negLog: real -> real, ps: seq<Path>, s: Node, t: Node)
    requires Members(g, negLog, ps, s, t)
    ensures AllScored(g, negLog, ps)
  {
    forall j | 0 <= j < |ps| ensures Scored(g, negLog, ps[j]) {
      assert Member(g, negLog, ps[j], s, t);
    }
  }

  lemma MemberOf(g: Graph, negLog: real -> real, ps: seq<Path>, x: Path, s: Node, t: Node)
    requires Members(g, negLog, ps, s, t) && x in ps
    ensures Member(g, negLog, x, s, t)
  {
    var j :| 0 <= j < |ps| && ps[j] == x;
  }

  lemma RouteIsMember(g: Graph, negLog: real -> real, p: Path, s: Node, t: Node)
    requires InRange(g) && NegLogLaws(negLog) && Route(g, p, s, t)
    ensures Member(g, negLog, p, s, t)
  {
    ValidPathIsWalk(g, p, None);
    InRangeIsScorable(g);
    ScorableWalkMetricsDefined(g, p);
    WeightedSumNonNeg(g, negLog, p, DefaultWeights);
  }

  /** No path scores 0; a scored path scores in (0, 1], and the fitter of two scored paths is
      exactly the cheaper one. */
  lemma FitnessRanksPaths(g: Graph, negLog: real -> real, p: Path, q: Path)
    requires Scored(g, negLog, p) && Scored(g, negLog, q)
    ensures Fitness(g, negLog, None) == 0.0
    ensures 0.0 < Fitness(g, negLog, Some(p)) <= 1.0
    ensures Fitness(g, negLog, Some(p)) > Fitness(g, negLog, Some(q))
            <==> WeightedSum(g, negLog, p, DefaultWeights) < WeightedSum(g, negLog, q, DefaultWeights)
  {
    FitnessOfCostInUnit(WeightedSum(g, negLog, p, DefaultWeights));
    FitnessOfCostOrder(WeightedSum(g, negLog, p, DefaultWeights), WeightedSum(g, negLog, q, DefaultWeights));
  }

  // ---------------------------------------------------------------------------
  // tournament_selection
  // ---------------------------------------------------------------------------

  /** `cands[m]` is `x` and the first candidate of greatest fitness, as `max` with a key picks. */
  ghost predicate FirstFittest(g: Graph, negLog: real -> real, cands: seq<Path>, x: Path, m: int)
    requires AllScored(g, negLog, cands)
  {
    && 0 <= m < |cands| && cands[m] == x
    && (forall j :: 0 <= j < |cands| ==> Fitness(g, negLog, Some(cands[j])) <= Fitness(g, negLog, Some(x)))
    && (forall j :: 0 <= j < m ==> Fitness(g, negLog, Some(cands[j])) < Fitness(g, negLog, Some(x)))
  }

  /** `random.sample`: `k` members drawn without replacement. */
  method Sample(population: seq<Path>, k: nat) returns (cands: seq<Path>)
    requires k <= |population|
    ensures |cands| == k && multiset(cands) <= multiset(population)
    ensures forall j :: 0 <= j < k ==> cands[j] in population
  {
    assert population == population[..k] + population[k..];
    cands :| |cands| == k && multiset(cands) <= multiset(population);
    forall j | 0 <= j < k ensures cands[j] in population {
      assert cands[j] in multiset(cands);
    }
  }

  lemma SampleScored(g: Graph, negLog: real -> real, population: seq<Path>, cands: seq<Path>)
    requires AllScored(g, negLog, population)
    requires forall j :: 0 <= j < |cands| ==> cands[j] in population
    ensures AllScored(g, negLog, cands)
  {
    forall j | 0 <= j < |cands| ensures Scored(g, negLog, cands[j]) {
      assert cands[j] in population;
      var i :| 0 <= i < |population| && population[i] == cands[j];
    }
  }

  /** `max(cands, key=fitness)`: the position of the first candidate of greatest fitness. */
  method Fittest(g: Graph, negLog: real -> real, cands: seq<Path>) returns (m: nat)
    requires AllScored(g, negLog, cands) && |cands| > 0
    ensures m < |cands| && FirstFittest(g, negLog, cands, cands[m], m)
  {
    m := 0;
    var bestFit := Fitness(g, negLog, Some(cands[0]));
    for j := 1 to |cands|
      invariant 0 <= m < j && bestFit == Fitness(g, negLog, Some(cands[m]))
      invariant forall i :: 0 <= i < j ==> Fitness(g, negLog, Some(cands[i])) <= bestFit
      invariant forall i :: 0 <= i < m ==> Fitness(g, negLog, Some(cands[i])) < bestFit
    {
      var f := Fitness(g, negLog, Some(cands[j]));
      if f > bestFit {
        m, bestFit := j, f;
      }
    }
  }

  /** A sample of `k` members drawn without replacement, and its first fittest member. A
      sample larger than the population raises, and so does `max` of an empty sample. */
  method TournamentSelection(population: seq<Path>, g: Graph, negLog: real -> real, k: nat)
    returns (r: Result<Path>, ghost sample: seq<Path>)
    requires AllScored(g, negLog, population)
    ensures k > |population| ==> r == Err(SampleLargerThanPopulation)
    ensures k == 0 ==> r == Err(EmptySequence)
    ensures 0 < k <= |population| <==> r.Ok?
    ensures r.Ok? ==> |sample| == k && multiset(sample) <= multiset(population) && r.value in population
    ensures r.Ok? ==> AllScored(g, negLog, sample) && exists m :: FirstFittest(g, negLog, sample, r.value, m)
  {
    sample := [];
    if k > |population| {
      return Err(SampleLargerThanPopulation), sample;
    }
    var cands := Sample(population, k);
    sample := cands;
    if k == 0 {
      return Err(EmptySequence), sample;
    }
    SampleScored(g, negLog, population, cands);
    var m := Fittest(g, negLog, cands);
    r := Ok(cands[m]);
  }

  // ---------------------------------------------------------------------------
  // crossover
  // ---------------------------------------------------------------------------

  /** The nodes of `p[1:-1]`. */
  function Interior(p: Path): set<Node> {
    set i | 1 <= i < |p| - 1 :: p[i]
  }

  function Common(p1: Path, p2: Path): set<Node> {
    Interior(p1) * Interior(p2)
  }

  /** `list.index`: the first position of `x`. */
  function IndexOf(p: Path, x: Node): (i: nat)
    requires x in p
    ensures i < |p| && p[i] == x
    ensures forall j :: 0 <= j < i ==> p[j] != x
  {
    if p[0] == x then 0 else 1 + IndexOf(p[1..], x)
  }

  /** Without a shared interior node, one parent (`pickFirst` is the draw); otherwise the
      first parent up to the first occurrence of the drawn shared node `c`, followed by the
      second parent from its first occurrence of `c`. */
  function Crossover(p1: Path, p2: Path, pickFirst: bool, c: Node): (r: Path)
    requires Common(p1, p2) != {} ==> c in Common(p1, p2)
    ensures Common(p1, p2) == {} ==> r == p1 || r == p2
    ensures Common(p1, p2) != {} ==>
              && |p2| >= 3 && |r| >= 1 && Last(r) == Last(p2)
              && exists i, j :: && 0 <= i < |p1| && 0 <= j < |p2| && p1[i] == c == p2[j]
                                && c !in p1[..i] && c !in p2[..j] && r == p1[..i] + p2[j..]
  {
    if Common(p1, p2) == {} then (if pickFirst then p1 else p2)
    else
      assert c in p1 && c in p2 by {
        var i :| 1 <= i < |p1| - 1 && p1[i] == c;
        var j :| 1 <= j < |p2| - 1 && p2[j] == c;
      }
      p1[..IndexOf(p1, c)] + p2[IndexOf(p2, c)..]
  }

  lemma {:induction false} SliceIsWalk(g: Graph, p: Path, lo: int, hi: int)
    requires IsWalk(g, p) && NodesIn(g, p) && 0 <= lo <= hi <= |p|
    ensures IsWalk(g, p[lo..hi]) && NodesIn(g, p[lo..hi])
  {
    var q := p[lo..hi];
    forall n | 0 <= n < |q| - 1 ensures LinkAt(g, q, n) {
      assert LinkAt(g, p, lo + n);
    }
    forall n | 0 <= n < |q| ensures NodeAt(g, q, n) {
      assert NodeAt(g, p, lo + n);
    }
  }

  /** Two walks joined by a link form a walk. */
  lemma {:induction false} JoinIsWalk(g: Graph, a: Path, b: Path)
    requires IsWalk(g, a) && NodesIn(g, a) && IsWalk(g, b) && NodesIn(g, b)
    requires |a| >= 1 && |b| >= 1 && HasEdge(g, Last(a), b[0])
    ensures IsWalk(g, a + b) && NodesIn(g, a + b)
  {
    var q := a + b;
    forall n | 0 <= n < |q| - 1 ensures LinkAt(g, q, n) {
      if n < |a| - 1 {
        assert LinkAt(g, a, n);
      } else if n >= |a| {
        assert LinkAt(g, b, n - |a|);
      }
    }
    forall n | 0 <= n < |q| ensures NodeAt(g, q, n) {
      if n < |a| { assert NodeAt(g, a, n); } else { assert NodeAt(g, b, n - |a|); }
    }
  }

  /** The first route up to position `i`, joined to the second from position `j`, where both
      routes hold the same node, is again a route. */
  lemma JoinIsRoute(g: Graph, p1: Path, p2: Path, i: nat, j: nat, s: Node, t: Node)
    requires Route(g, p1, s, t) && Route(g, p2, s, t)
    requires i < |p1| && j <= |p2| - 2 && p1[i] == p2[j] && (i == 0 ==> j == 0)
    ensures Route(g, p1[..i] + p2[j..], s, t)
  {
    ValidPathIsWalk(g, p1, None);
    ValidPathIsWalk(g, p2, None);
    var head, tail := p1[..i], p2[j..];
    SliceIsWalk(g, p2, j, |p2|);
    assert p2[j..|p2|] == tail;
    if i == 0 {
      assert head + tail == p2;
    } else {
      SliceIsWalk(g, p1, 0, i);
      assert p1[0..i] == head;
      assert LinkAt(g, p1, i - 1);
      JoinIsWalk(g, head, tail);
      WalkIsValid(g, head + tail);
    }
  }

  /** Crossing two routes from `s` to `t` gives a route from `s` to `t`: the junction is a link
      of the first parent, and the second parent's tail has at least two nodes. */
  lemma CrossoverIsRoute(g: Graph, p1: Path, p2: Path, pickFirst: bool, c: Node, s: Node, t: Node)
    requires Route(g, p1, s, t) && Route(g, p2, s, t)
    requires Common(p1, p2) != {} ==> c in Common(p1, p2)
    ensures Route(g, Crossover(p1, p2, pickFirst, c), s, t)
  {
    if Common(p1, p2) != {} {
      var k :| 1 <= k < |p2| - 1 && p2[k] == c;
      var i, j := IndexOf(p1, c), IndexOf(p2, c);
      assert j <= k;
      JoinIsRoute(g, p1, p2, i, j, s, t);
    }
  }

  /** A path crossed with itself is itself. */
  lemma CrossoverWithItself(p: Path, pickFirst: bool, c: Node)
    requires Common(p, p) != {} ==> c in Common(p, p)
    ensures Crossover(p, p, pickFirst, c) == p
  {
    if Common(p, p) != {} {
      var i := IndexOf(p, c);
      assert p[..i] + p[i..] == p;
    }
  }

  // ---------------------------------------------------------------------------
  // mutate
  // ---------------------------------------------------------------------------

  /** With the draw `roll` above `rate` the path is unchanged. Otherwise position `idx`, drawn
      from 1 to |path| - 2 (an empty range raises), is replaced by `pick`, a neighbour of the
      node it replaces; a node without neighbours leaves the path unchanged. */
  function Mutate(path: Path, g: Graph, rate: real, roll: real, idx: int, pick: Node): (r: Result<Path>)
    requires g.adj.Keys == g.nodes.Keys
    requires roll <= rate && |path| >= 3 ==>
               (1 <= idx <= |path| - 2 && HasNode(g, path[idx])
                && (|Neighbors(g, path[idx])| > 0 ==> pick in Neighbors(g, path[idx])))
    ensures r.Err? <==> roll <= rate && |path| < 3
    ensures r.Err? ==> r.error == EmptyRange
    ensures r.Ok? ==> |r.value| == |path|
    ensures roll > rate ==> r == Ok(path)
  {
    if roll > rate then Ok(path)
    else if |path| < 3 then Err(EmptyRange)
    else if |Neighbors(g, path[idx])| == 0 then Ok(path)
    else Ok(path[idx := pick])
  }

  /** A mutation raises only when it fires on a path of fewer than three nodes. Otherwise it
      keeps the length and both endpoints and changes at most the position drawn, to a
      neighbour of the node that was there. */
  lemma MutateChangesOnePosition(path: Path, g: Graph, rate: real, roll: real, idx: int, pick: Node)
    requires g.adj.Keys == g.nodes.Keys
    requires roll <= rate && |path| >= 3 ==>
               (1 <= idx <= |path| - 2 && HasNode(g, path[idx])
                && (|Neighbors(g, path[idx])| > 0 ==> pick in Neighbors(g, path[idx])))
    ensures Mutate(path, g, rate, roll, idx, pick).Err? <==> roll <= rate && |path| < 3
    ensures roll > rate ==> Mutate(path, g, rate, roll, idx, pick) == Ok(path)
    ensures var r := Mutate(path, g, rate, roll, idx, pick);
            r.Ok? ==> && |r.value| == |path|
                      && (|path| > 0 ==> r.value[0] == path[0] && Last(r.value) == Last(path))
                      && (forall i :: 0 <= i < |path| && r.value[i] != path[i] ==> i == idx && r.value[i] in Neighbors(g, path[i]))
  {
  }

  // ---------------------------------------------------------------------------
  // genetic_algorithm
  // ---------------------------------------------------------------------------

  /** The draws behind one child: the crossover's choice of parent and shared node, and the
      mutation's roll, position and replacement neighbour. */
  datatype Draw = Draw(pickFirst: bool, shared: Node, roll: real, idx: int, pick: Node)

  /** The draws are ones `random` can make for parents `p1` and `p2`: the shared node is an
      interior node of both when there is one, the roll is in [0, 1), and a mutation that
      fires on three or more nodes picks an interior position and one of its neighbours. */
  predicate Drawable(g: Graph, p1: Path, p2: Path, rate: real, d: Draw) {
    && (Common(p1, p2) != {} ==> d.shared in Common(p1, p2))
    && MutationDrawable(g, Crossover(p1, p2, d.pickFirst, d.shared), rate, d)
  }

  /** The mutation draws are possible for `child`, as `Mutate` demands. */
  predicate MutationDrawable(g: Graph, child: Path, rate: real, d: Draw) {
    && 0.0 <= d.roll < 1.0
    && g.adj.Keys == g.nodes.Keys
    && (d.roll <= rate && |child| >= 3 ==>
          (1 <= d.idx <= |child| - 2 && HasNode(g, child[d.idx])
           && (|Neighbors(g, child[d.idx])| > 0 ==> d.pick in Neighbors(g, child[d.idx]))))
  }

  /** `mutate(crossover(p1, p2))` under the draws `d`: `Some` when `is_valid_path` accepts it,
      `None` when the child is dropped. */
  function Child(g: Graph, p1: Path, p2: Path, rate: real, d: Draw): (r: Result<Option<Path>>)
    requires Drawable(g, p1, p2, rate, d)
    ensures r.Err? ==> r.error == EmptyRange
    ensures r.Ok? && r.value.Some? ==> ValidPath(g, r.value.value, None)
  {
    var mutated := Mutate(Crossover(p1, p2, d.pickFirst, d.shared), g, rate, d.roll, d.idx, d.pick);
    if mutated.Err? then Err(mutated.error)
    else if ValidPath(g, mutated.value, None) then Ok(Some(mutated.value))
    else Ok(None)
  }

  /** The child of two members is dropped exactly when its mutation is not a valid path, and
      is a member again when kept. Without a mutation it is always kept: it is the crossover
      child itself. */
  lemma ChildOfMembers(g: Graph, negLog: real -> real, p1: Path, p2: Path, rate: real, d: Draw, s: Node, t: Node)
    requires Valid(g) && InRange(g) && NegLogLaws(negLog)
    requires Member(g, negLog, p1, s, t) && Member(g, negLog, p2, s, t) && Drawable(g, p1, p2, rate, d)
    ensures Child(g, p1, p2, rate, d).Err? <==> d.roll <= rate && |Crossover(p1, p2, d.pickFirst, d.shared)| < 3
    ensures var mutated := Mutate(Crossover(p1, p2, d.pickFirst, d.shared), g, rate, d.roll, d.idx, d.pick);
            mutated.Ok? ==> (Child(g, p1, p2, rate, d) == Ok(None) <==> !ValidPath(g, mutated.value, None))
    ensures Child(g, p1, p2, rate, d).Ok? && Child(g, p1, p2, rate, d).value.Some? ==>
              Member(g, negLog, Child(g, p1, p2, rate, d).value.value, s, t)
    ensures d.roll > rate ==> Child(g, p1, p2, rate, d) == Ok(Some(Crossover(p1, p2, d.pickFirst, d.shared)))
  {
    var child := Crossover(p1, p2, d.pickFirst, d.shared);
    CrossoverIsRoute(g, p1, p2, d.pickFirst, d.shared, s, t);
    MutateChangesOnePosition(child, g, rate, d.roll, d.idx, d.pick);
    var c := Child(g, p1, p2, rate, d);
    if c.Ok? && c.value.Some? {
      RouteIsMember(g, negLog, c.value.value, s, t);
    }
  }

  /** One child of two members: crossed over, possibly mutated, and kept (`Some`) only when
      `is_valid_path` accepts it, in which case it is a member again. Only a mutation of a
      two-node child raises. `d` records the draws made. */
  method Offspring(source: Node, target: Node, g: Graph, negLog: real -> real, p1: Path, p2: Path,
                   mutationRate: real) returns (r: Result<Option<Path>>, ghost d: Draw)
    requires Valid(g) && InRange(g) && NegLogLaws(negLog)
    requires Member(g, negLog, p1, source, target) && Member(g, negLog, p2, source, target)
    ensures Drawable(g, p1, p2, mutationRate, d) && r == Child(g, p1, p2, mutationRate, d)
    ensures r.Err? ==> r.error == EmptyRange
    ensures r.Ok? && r.value.Some? ==> Member(g, negLog, r.value.value, source, target)
  {
    var pickFirst: bool :| true;
    var common := Common(p1, p2);
    var c: Node := 0;
    if common != {} {
      NonEmptyHasMember(common);
      c :| c in common;
    }
    var child := Crossover(p1, p2, pickFirst, c);
    CrossoverIsRoute(g, p1, p2, pickFirst, c, source, target);
    ValidPathIsWalk(g, child, None);
    var roll: real :| 0.0 <= roll < 1.0;
    var idx: int := 0;
    var pick: Node := 0;
    if |child| >= 3 {
      idx :| 1 <= idx <= |child| - 2;
      assert NodeAt(g, child, idx);
      var nbrs := Neighbors(g, child[idx]);
      if |nbrs| > 0 {
        var k: nat :| k < |nbrs|;
        pick := nbrs[k];
      }
    }
    d := Draw(pickFirst, c, roll, idx, pick);
    var mutated := Mutate(child, g, mutationRate, roll, idx, pick);
    if mutated.Err? {
      return Err(mutated.error), d;
    }
    var valid := IsValidPath(g, mutated.value, None);
    if !valid {
      return Ok(None), d;
    }
    MutateChangesOnePosition(child, g, mutationRate, roll, idx, pick);
    RouteIsMember(g, negLog, mutated.value, source, target);
    return Ok(Some(mutated.value)), d;
  }

  /** One pass of the inner loop: the two tournaments (samples and winners), the draws behind
      the child, and what became of the child. */
  datatype Mating = Mating(sample1: seq<Path>, p1: Path, sample2: seq<Path>, p2: Path, draw: Draw,
                           child: Result<Option<Path>>)

  /** `winner` is what `tournament_selection` can return from `population`: the first fittest
      of three members drawn without replacement. */
  ghost predicate TournamentWon(g: Graph, negLog: real -> real, population: seq<Path>, sample: seq<Path>, winner: Path) {
    && |sample| == TournamentSize && multiset(sample) <= multiset(population) && winner in population
    && AllScored(g, negLog, sample) && exists m :: FirstFittest(g, negLog, sample, winner, m)
  }

  /** The parents of `m` won tournaments over `population`, its draws are possible for them,
      and its child is the one those draws make. */
  ghost predicate MatingFrom(g: Graph, negLog: real -> real, population: seq<Path>, rate: real, m: Mating) {
    && TournamentWon(g, negLog, population, m.sample1, m.p1)
    && TournamentWon(g, negLog, population, m.sample2, m.p2)
    && Drawable(g, m.p1, m.p2, rate, m.draw) && m.child == Child(g, m.p1, m.p2, rate, m.draw)
  }

  ghost predicate MatingsFrom(g: Graph, negLog: real -> real, population: seq<Path>, rate: real, ms: seq<Mating>) {
    forall i :: 0 <= i < |ms| ==> MatingFrom(g, negLog, population, rate, ms[i])
  }

  lemma MatingsExtend(g: Graph, negLog: real -> real, population: seq<Path>, rate: real, ms: seq<Mating>, m: Mating)
    requires MatingsFrom(g, negLog, population, rate, ms) && MatingFrom(g, negLog, population, rate, m)
    ensures MatingsFrom(g, negLog, population, rate, ms + [m])
  {
    var ms' := ms + [m];
    forall i | 0 <= i < |ms'| ensures MatingFrom(g, negLog, population, rate, ms'[i]) {
      if i < |ms| {
        assert ms'[i] == ms[i];
      } else {
        assert ms'[i] == m;
      }
    }
  }

  /** The generation the matings `ms` produce, in order: each kept child once, a dropped one
      not at all, and the first raising child's error. */
  function Generation(ms: seq<Mating>): (r: Result<seq<Path>>)
    ensures r.Ok? ==> |r.value| <= |ms| && forall i :: 0 <= i < |ms| ==> ms[i].child.Ok?
  {
    if ms == [] then Ok([])
    else
      var init := ms[..|ms| - 1];
      assert forall i :: 0 <= i < |init| ==> init[i] == ms[i];
      match Generation(init)
      case Err(e) => Err(e)
      case Ok(kept) =>
        match ms[|ms| - 1].child
        case Err(e) => Err(e)
        case Ok(o) => Ok(kept + (if o.Some? then [o.value] else []))
  }

  /** One more mating adds its child when kept, or ends the generation with its error. */
  lemma GenerationAppend(ms: seq<Mating>, m: Mating, kept: seq<Path>)
    requires Generation(ms) == Ok(kept)
    ensures m.child.Err? ==> Generation(ms + [m]) == Err(m.child.error)
    ensures m.child == Ok(None) ==> Generation(ms + [m]) == Ok(kept)
    ensures m.child.Ok? && m.child.value.Some? ==> Generation(ms + [m]) == Ok(kept + [m.child.value.value])
  {
    assert (ms + [m])[..|ms|] == ms;
    assert kept + [] == kept;
  }

  /** A generation comes out empty exactly when every one of its children was dropped. */
  lemma {:induction false} GenerationEmpty(ms: seq<Mating>, kept: seq<Path>)
    requires Generation(ms) == Ok(kept)
    ensures kept == [] <==> forall j :: 0 <= j < |ms| ==> ms[j].child == Ok(None)
    decreases |ms|
  {
    if ms != [] {
      var n := |ms| - 1;
      var init := ms[..n];
      var k0 := Generation(init).value;
      GenerationEmpty(init, k0);
      assert forall j :: 0 <= j < n ==> init[j] == ms[j];
    }
  }

  /** When a generation bred from members comes out empty, the mutation fired for every
      child: a child that is not mutated is always kept. */
  lemma EmptyGenerationMutated(g: Graph, negLog: real -> real, s: Node, t: Node, population: seq<Path>,
                               rate: real, ms: seq<Mating>)
    requires Valid(g) && InRange(g) && NegLogLaws(negLog) && Members(g, negLog, population, s, t)
    requires MatingsFrom(g, negLog, population, rate, ms) && Generation(ms) == Ok([])
    ensures forall j :: 0 <= j < |ms| ==> ms[j].draw.roll <= rate
  {
    GenerationEmpty(ms, []);
    forall j | 0 <= j < |ms| ensures ms[j].draw.roll <= rate {
      var m := ms[j];
      assert MatingFrom(g, negLog, population, rate, m);
      MemberOf(g, negLog, population, m.p1, s, t);
      MemberOf(g, negLog, population, m.p2, s, t);
      ChildOfMembers(g, negLog, m.p1, m.p2, rate, m.draw, s, t);
    }
  }

  /** Pass `m` raised: its mutation fired on a crossover child of fewer than three nodes, where
      `randint(1, len - 2)` has an empty range. */
  predicate RaisedAt(m: Mating, rate: real) {
    && (Common(m.p1, m.p2) != {} ==> m.draw.shared in Common(m.p1, m.p2))
    && m.draw.roll <= rate && |Crossover(m.p1, m.p2, m.draw.pickFirst, m.draw.shared)| < 3
  }

  /** The passes `ms` over `population` ended their generation with the `randint` error, raised
      by one of them. */
  ghost predicate Raised(g: Graph, negLog: real -> real, rate: real, population: seq<Path>, ms: seq<Mating>) {
    && MatingsFrom(g, negLog, population, rate, ms) && Generation(ms) == Err(EmptyRange)
    && exists j :: 0 <= j < |ms| && RaisedAt(ms[j], rate)
  }

  /** A generation that fails fails with the error of one of its passes. */
  lemma {:induction false} GenerationErrAt(ms: seq<Mating>)
    requires Generation(ms).Err?
    ensures exists j :: 0 <= j < |ms| && ms[j].child == Err(Generation(ms).error)
    decreases |ms|
  {
    var n := |ms| - 1;
    var init := ms[..n];
    if Generation(init).Err? {
      GenerationErrAt(init);
      var j :| 0 <= j < |init| && init[j].child == Err(Generation(init).error);
      assert ms[j] == init[j];
    } else {
      assert ms[n].child == Err(Generation(ms).error);
    }
  }

  /** A generation bred from members fails only through a mutation that fired on a two-node
      child, so never when the mutation rate is negative. */
  lemma GenerationRaised(g: Graph, negLog: real -> real, s: Node, t: Node, population: seq<Path>,
                         rate: real, ms: seq<Mating>)
    requires Valid(g) && InRange(g) && NegLogLaws(negLog) && Members(g, negLog, population, s, t)
    requires MatingsFrom(g, negLog, population, rate, ms) && Generation(ms).Err?
    ensures Generation(ms) == Err(EmptyRange) && Raised(g, negLog, rate, population, ms)
    ensures 0.0 <= rate
  {
    GenerationErrAt(ms);
    var j :| 0 <= j < |ms| && ms[j].child == Err(Generation(ms).error);
    var m := ms[j];
    assert MatingFrom(g, negLog, population, rate, m);
    MemberOf(g, negLog, population, m.p1, s, t);
    MemberOf(g, negLog, population, m.p2, s, t);
    ChildOfMembers(g, negLog, m.p1, m.p2, rate, m.draw, s, t);
    assert RaisedAt(ms[j], rate);
  }

  /** One pass of the inner loop: two tournament winners, crossed over and possibly mutated,
      and the child kept or dropped. A population smaller than the tournament is the sampling
      error; otherwise `m` records the pass and the result is its child. */
  method Mate(source: Node, target: Node, g: Graph, negLog: real -> real, population: seq<Path>,
              mutationRate: real) returns (r: Result<Option<Path>>, ghost m: Mating)
    requires Valid(g) && InRange(g) && NegLogLaws(negLog)
    requires Members(g, negLog, population, source, target)
    ensures |population| < TournamentSize ==> r == Err(SampleLargerThanPopulation)
    ensures |population| >= TournamentSize ==> MatingFrom(g, negLog, population, mutationRate, m) && r == m.child
    ensures r.Ok? && r.value.Some? ==> Member(g, negLog, r.value.value, source, target)
  {
    MembersScored(g, negLog, population, source, target);
    var t1; ghost var s1;
    t1, s1 := TournamentSelection(population, g, negLog, TournamentSize);
    if t1.Err? {
      return Err(t1.error), Mating([], [], [], [], Draw(false, 0, 0.0, 0, 0), Err(t1.error));
    }
    var t2; ghost var s2;
    t2, s2 := TournamentSelection(population, g, negLog, TournamentSize);
    // the second draw cannot fail where the first one did not
    var p1, p2 := t1.value, t2.value;
    MemberOf(g, negLog, population, p1, source, target);
    MemberOf(g, negLog, population, p2, source, target);
    var child; ghost var d;
    child, d := Offspring(source, target, g, negLog, p1, p2, mutationRate);
    m := Mating(s1, p1, s2, p2, d, child);
    return child, m;
  }

  /** One generation: `popSize` children, each from two tournament winners crossed over and
      possibly mutated, kept only when `is_valid_path` accepts it. `matings` records the
      tournaments and draws; the result is the generation they produce. */
  method Breed(source: Node, target: Node, g: Graph, negLog: real -> real, population: seq<Path>,
               popSize: nat, mutationRate: real) returns (r: Result<seq<Path>>, ghost matings: seq<Mating>)
    requires Valid(g) && InRange(g) && NegLogLaws(negLog)
    requires Members(g, negLog, population, source, target)
    ensures MatingsFrom(g, negLog, population, mutationRate, matings) && |matings| <= popSize
    ensures popSize > 0 && |population| < TournamentSize ==> r == Err(SampleLargerThanPopulation) && matings == []
    ensures popSize == 0 || |population| >= TournamentSize ==> r == Generation(matings)
    ensures r.Ok? ==> |matings| == popSize && |r.value| <= popSize && Members(g, negLog, r.value, source, target)
    ensures r.Err? ==> (r.error == SampleLargerThanPopulation && |population| < TournamentSize) || r.error == EmptyRange
  {
    var next: seq<Path> := [];
    matings := [];
    for n := 0 to popSize
      invariant |next| <= n && |matings| == n
      invariant n > 0 ==> |population| >= TournamentSize
      invariant Members(g, negLog, next, source, target)
      invariant MatingsFrom(g, negLog, population, mutationRate, matings)
      invariant Generation(matings) == Ok(next)
    {
      var child; ghost var m;
      child, m := Mate(source, target, g, negLog, population, mutationRate);
      if child == Err(SampleLargerThanPopulation) {
        return Err(SampleLargerThanPopulation), matings;
      }
      ghost var before := matings;
      MatingsExtend(g, negLog, population, mutationRate, before, m);
      GenerationAppend(before, m, next);
      matings := matings + [m];
      if child.Err? {
        return Err(child.error), matings;
      }
      if child.value.Some? {
        MembersAppend(g, negLog, next, child.value.value, source, target);
        next := next + [child.value.value];
      }
    }
    return Ok(next), matings;
  }

  /** The update loop of `genetic_algorithm`: the best fitness rises to the greatest fitness in
      `population` when that is higher, taking the first member that reaches it. */
  method UpdateBest(g: Graph, negLog: real -> real, population: seq<Path>, bestPath: Option<Path>, bestFit: real)
    returns (bp: Option<Path>, bf: real)
    requires AllScored(g, negLog, population)
    ensures bf >= bestFit
    ensures forall j :: 0 <= j < |population| ==> Fitness(g, negLog, Some(population[j])) <= bf
    ensures (bp == bestPath && bf == bestFit)
            || exists m :: && 0 <= m < |population| && bp == Some(population[m]) && bf == Fitness(g, negLog, bp) > bestFit
                           && forall j :: 0 <= j < m ==> Fitness(g, negLog, Some(population[j])) < bf
  {
    bp, bf := bestPath, bestFit;
    ghost var m := -1;
    for n := 0 to |population|
      invariant bf >= bestFit
      invariant forall j :: 0 <= j < n ==> Fitness(g, negLog, Some(population[j])) <= bf
      invariant (m == -1 && bp == bestPath && bf == bestFit)
                || (&& 0 <= m < n && bp == Some(population[m]) && bf == Fitness(g, negLog, bp) > bestFit
                    && forall j :: 0 <= j < m ==> Fitness(g, negLog, Some(population[j])) < bf)
    {
      var f := Fitness(g, negLog, Some(population[n]));
      if f > bf {
        bp, bf := Some(population[n]), f;
        m := n;
      }
    }
  }

  /** Every member of every generation is a route from `source` to `target`. */
  ghost predicate AllMembers(g: Graph, negLog: real -> real, s: Node, t: Node, pops: seq<seq<Path>>) {
    forall i :: 0 <= i < |pops| ==> Members(g, negLog, pops[i], s, t)
  }

  /** `bf` is the fitness of `bp`, 0 exactly when no path was kept, and no member of any
      generation after the first is fitter; the best path is the first member, in generation
      order and then in population order, that reaches `bf`. */
  ghost predicate BestOfGenerations(g: Graph, negLog: real -> real, s: Node, t: Node, pops: seq<seq<Path>>, bp: Option<Path>, bf: real)
    requires AllMembers(g, negLog, s, t, pops)
  {
    && (bp.None? ==> bf == 0.0 && forall i :: 1 <= i < |pops| ==> pops[i] == [])
    && (bp.Some? ==> Member(g, negLog, bp.value, s, t) && bf == Fitness(g, negLog, bp) > 0.0
                     && exists i, m :: FirstReaching(g, negLog, s, t, pops, bp.value, bf, i, m))
    && forall i, j :: 1 <= i < |pops| && 0 <= j < |pops[i]| ==> FitAtMost(g, negLog, s, t, pops[i], j, bf)
  }

  /** `p` is member `m` of generation `i`, and every member before it (in the earlier
      generations after the first, or earlier in generation `i`) is strictly less fit than `bf`. */
  ghost predicate FirstReaching(g: Graph, negLog: real -> real, s: Node, t: Node, pops: seq<seq<Path>>,
                                p: Path, bf: real, i: int, m: int)
    requires AllMembers(g, negLog, s, t, pops)
  {
    && 1 <= i < |pops| && 0 <= m < |pops[i]| && pops[i][m] == p
    && (forall i', j :: 1 <= i' < i && 0 <= j < |pops[i']| ==> Fitness(g, negLog, Some(pops[i'][j])) < bf)
    && (forall j :: 0 <= j < m ==> Fitness(g, negLog, Some(pops[i][j])) < bf)
  }

  /** The `j`-th member of a generation is no fitter than `bf`. */
  ghost predicate FitAtMost(g: Graph, negLog: real -> real, s: Node, t: Node, ps: seq<Path>, j: int, bf: real)
    requires Members(g, negLog, ps, s, t)
  {
    0 <= j < |ps| && Fitness(g, negLog, Some(ps[j])) <= bf
  }

  /** The whole solver. `populations` holds the initial population and each later generation.
      Errors: a stranded random walk, the population budget, a tournament over fewer than
      three members, or a mutation of a two-node child. */
  method GeneticAlgorithm(source: Node, target: Node, g: Graph, negLog: real -> real, popSize: nat,
                          generations: nat, mutationRate: real, fuel: nat)
    returns (r: Result<(Option<Path>, real)>, ghost populations: seq<seq<Path>>, ghost matings: seq<seq<Mating>>)
    requires Valid(g) && InRange(g) && NegLogLaws(negLog) && HasNode(g, source)
    ensures AllMembers(g, negLog, source, target, populations)
    ensures |populations| > 0 && r != Err(EmptyRange) ==> Evolved(g, negLog, mutationRate, popSize, populations, matings)
    ensures r.Ok? ==> |populations| == generations + 1 && |populations[0]| == popSize
    ensures forall i :: 1 <= i < |populations| ==> |populations[i]| <= popSize
    ensures r.Ok? ==> BestOfGenerations(g, negLog, source, target, populations, r.value.0, r.value.1)
    ensures r.Err? ==> r.error in {EmptySequence, OutOfFuel, SampleLargerThanPopulation, EmptyRange}
    ensures |populations| > 0 ==> |populations[0]| == popSize
    ensures r.Err? && r.error == SampleLargerThanPopulation ==>
              popSize > 0 && generations > 0 && |populations| > 0 && |populations[|populations| - 1]| < TournamentSize
    ensures r == Err(EmptySequence) ==> populations == [] && exists w :: Stranded(g, w, source, target, DefaultMaxHops)
    ensures r == Err(OutOfFuel) ==> populations == [] && (fuel < popSize || exists w :: Missed(g, w, source, target, DefaultMaxHops))
    ensures r == Err(EmptyRange) ==> 0.0 <= mutationRate && EvolvedUntilRaised(g, negLog, mutationRate, popSize, populations, matings)
    ensures r.Ok? && r.value.0.None? && popSize > 0 && generations > 0 ==>
              && generations == 1 && |matings| == 1 && |matings[0]| == popSize
              && forall j :: 0 <= j < popSize ==> matings[0][j].draw.roll <= mutationRate
  {
    populations, matings := [], [];
    var initial := CreatePopulation(popSize, source, target, g, fuel);
    if initial.Err? {
      return Err(initial.error), populations, matings;
    }
    var population := initial.value;
    GaStart(g, negLog, source, target, mutationRate, popSize, population);
    populations := [population];
    var bestPath: Option<Path> := None;
    var bestFit := 0.0;
    for gen := 0 to generations
      invariant |populations| == gen + 1 && populations[gen] == population
      invariant GaSoFar(g, negLog, source, target, mutationRate, popSize, populations, matings, bestPath, bestFit)
    {
      var step; ghost var ms;
      step, ms := NextGeneration(source, target, g, negLog, popSize, mutationRate, population, bestPath, bestFit,
                                 populations, matings);
      if step == Err(EmptyRange) {
        RaisedAfter(g, negLog, source, target, mutationRate, popSize, populations, matings, bestPath, bestFit, ms);
        return Err(EmptyRange), populations, matings + [ms];
      }
      if step.Err? {
        return Err(step.error), populations, matings;
      }
      population, bestPath, bestFit := step.value.0, step.value.1, step.value.2;
      populations, matings := populations + [population], matings + [ms];
    }
    NoBestMeansMutated(g, negLog, source, target, mutationRate, popSize, populations, matings, bestPath, bestFit);
    return Ok((bestPath, bestFit)), populations, matings;
  }

  /** One pass of the generation loop: the next population bred from the last one of `pops`,
      and the best path and fitness updated over it. */
  method NextGeneration(source: Node, target: Node, g: Graph, negLog: real -> real, popSize: nat, mutationRate: real,
                        population: seq<Path>, bestPath: Option<Path>, bestFit: real,
                        ghost pops: seq<seq<Path>>, ghost ms: seq<seq<Mating>>)
    returns (r: Result<(seq<Path>, Option<Path>, real)>, ghost last: seq<Mating>)
    requires Valid(g) && InRange(g) && NegLogLaws(negLog)
    requires GaSoFar(g, negLog, source, target, mutationRate, popSize, pops, ms, bestPath, bestFit)
    requires pops[|pops| - 1] == population
    ensures r.Ok? ==> GaSoFar(g, negLog, source, target, mutationRate, popSize, pops + [r.value.0], ms + [last], r.value.1, r.value.2)
    ensures r.Err? ==> r.error in {SampleLargerThanPopulation, EmptyRange}
    ensures r.Err? ==> popSize > 0
    ensures r.Err? && r.error == SampleLargerThanPopulation ==> |population| < TournamentSize
    ensures r == Err(EmptyRange) ==> |last| <= popSize && Raised(g, negLog, mutationRate, population, last) && 0.0 <= mutationRate
  {
    assert Members(g, negLog, pops[|pops| - 1], source, target);
    var bred;
    bred, last := Breed(source, target, g, negLog, population, popSize, mutationRate);
    if bred.Err? {
      if bred.error == EmptyRange {
        GenerationRaised(g, negLog, source, target, population, mutationRate, last);
      }
      return Err(bred.error), last;
    }
    MembersScored(g, negLog, bred.value, source, target);
    var bp, bf := UpdateBest(g, negLog, bred.value, bestPath, bestFit);
    GaStep(g, negLog, source, target, mutationRate, popSize, pops, ms, bestPath, bestFit, last, bred.value, bp, bf);
    return Ok((bred.value, bp, bf)), last;
  }

  /** The generations `pops` were bred by all but the last of the passes `ms`, and the last
      passes, over the last generation, raised the `randint` error. */
  ghost predicate EvolvedUntilRaised(g: Graph, negLog: real -> real, rate: real, popSize: nat,
                                     pops: seq<seq<Path>>, ms: seq<seq<Mating>>) {
    && |ms| == |pops| > 0
    && Evolved(g, negLog, rate, popSize, pops, ms[..|pops| - 1])
    && Raised(g, negLog, rate, pops[|pops| - 1], ms[|ms| - 1])
  }

  lemma RaisedAfter(g: Graph, negLog: real -> real, s: Node, t: Node, rate: real, popSize: nat,
                    pops: seq<seq<Path>>, ms: seq<seq<Mating>>, bp: Option<Path>, bf: real, last: seq<Mating>)
    requires GaSoFar(g, negLog, s, t, rate, popSize, pops, ms, bp, bf)
    requires Raised(g, negLog, rate, pops[|pops| - 1], last)
    ensures EvolvedUntilRaised(g, negLog, rate, popSize, pops, ms + [last])
  {
    assert (ms + [last])[..|pops| - 1] == ms;
  }

  /** The initial population, with no best path yet. */
  lemma GaStart(g: Graph, negLog: real -> real, s: Node, t: Node, rate: real, popSize: nat, population: seq<Path>)
    requires InRange(g) && NegLogLaws(negLog) && |population| == popSize
    requires forall j :: 0 <= j < |population| ==> Route(g, population[j], s, t)
    ensures GaSoFar(g, negLog, s, t, rate, popSize, [population], [], None, 0.0)
  {
    forall j | 0 <= j < |population| ensures Member(g, negLog, population[j], s, t) {
      RouteIsMember(g, negLog, population[j], s, t);
    }
    assert AllMembers(g, negLog, s, t, [population]);
  }

  /** Without a best path after at least one generation of a non-empty population, there was
      exactly one generation and the mutation fired for every child of it. */
  lemma NoBestMeansMutated(g: Graph, negLog: real -> real, s: Node, t: Node, rate: real, popSize: nat,
                           pops: seq<seq<Path>>, ms: seq<seq<Mating>>, bp: Option<Path>, bf: real)
    requires Valid(g) && InRange(g) && NegLogLaws(negLog)
    requires GaSoFar(g, negLog, s, t, rate, popSize, pops, ms, bp, bf)
    ensures bp.None? && popSize > 0 && |pops| > 1 ==>
              && |pops| == 2 && |ms| == 1 && |ms[0]| == popSize
              && forall j :: 0 <= j < popSize ==> ms[0][j].draw.roll <= rate
  {
    if bp.None? && popSize > 0 && |pops| > 1 {
      assert pops[1] == [];
      assert Bred(g, negLog, rate, popSize, pops[0], ms[0], pops[1]);
      assert AllMembers(g, negLog, s, t, pops);
      EmptyGenerationMutated(g, negLog, s, t, pops[0], rate, ms[0]);
    }
  }

  /** What holds of the solver after the generations `pops`, bred by the matings `ms`, with
      best path `bp` of fitness `bf`. */
  ghost predicate GaSoFar(g: Graph, negLog: real -> real, s: Node, t: Node, rate: real, popSize: nat,
                          pops: seq<seq<Path>>, ms: seq<seq<Mating>>, bp: Option<Path>, bf: real) {
    && |pops| >= 1 && |pops[0]| == popSize
    && AllMembers(g, negLog, s, t, pops)
    && BestOfGenerations(g, negLog, s, t, pops, bp, bf)
    && Evolved(g, negLog, rate, popSize, pops, ms)
    && Sized(popSize, pops)
  }

  /** One more bred generation, and the best updated over it, keep `GaSoFar`. */
  lemma GaStep(g: Graph, negLog: real -> real, s: Node, t: Node, rate: real, popSize: nat,
               pops: seq<seq<Path>>, ms: seq<seq<Mating>>, oldPath: Option<Path>, oldFit: real,
               last: seq<Mating>, next: seq<Path>, bp: Option<Path>, bf: real)
    requires GaSoFar(g, negLog, s, t, rate, popSize, pops, ms, oldPath, oldFit)
    requires popSize > 0 ==> |pops[|pops| - 1]| >= TournamentSize
    requires |last| == popSize && MatingsFrom(g, negLog, pops[|pops| - 1], rate, last)
    requires Generation(last) == Ok(next) && Members(g, negLog, next, s, t)
    requires bf >= oldFit
    requires forall j :: 0 <= j < |next| ==> Fitness(g, negLog, Some(next[j])) <= bf
    requires (bp == oldPath && bf == oldFit)
             || exists m :: && 0 <= m < |next| && bp == Some(next[m]) && bf == Fitness(g, negLog, bp) > oldFit
                            && forall j :: 0 <= j < m ==> Fitness(g, negLog, Some(next[j])) < bf
    ensures GaSoFar(g, negLog, s, t, rate, popSize, pops + [next], ms + [last], bp, bf)
  {
    BestExtended(g, negLog, s, t, pops, next, oldPath, oldFit, bp, bf);
    EvolvedExtend(g, negLog, rate, popSize, pops, ms, last, next);
    SizesExtend(popSize, pops, next);
  }

  /** Generation sizes: at most `popSize` after the first, and at least the tournament size in
      every generation that was bred from. */
  ghost predicate Sized(popSize: nat, pops: seq<seq<Path>>) {
    && (forall i :: 1 <= i < |pops| ==> |pops[i]| <= popSize)
    && (popSize > 0 ==> forall i :: 0 <= i < |pops| - 1 ==> |pops[i]| >= TournamentSize)
  }

  lemma SizesExtend(popSize: nat, pops: seq<seq<Path>>, next: seq<Path>)
    requires |pops| >= 1 && Sized(popSize, pops) && |next| <= popSize
    requires popSize > 0 ==> |pops[|pops| - 1]| >= TournamentSize
    ensures Sized(popSize, pops + [next]) && (pops + [next])[0] == pops[0]
  {
    var pops' := pops + [next];
    forall i | 0 <= i < |pops'| ensures |pops'[i]| <= popSize || i == 0
      ensures popSize > 0 && i < |pops'| - 1 ==> |pops'[i]| >= TournamentSize
    {
      if i < |pops| {
        assert pops'[i] == pops[i];
      } else {
        assert pops'[i] == next;
      }
    }
  }

  /** Generation `i + 1` of `pops` is what the `popSize` matings `ms[i]` over generation `i`
      produce. */
  ghost predicate Evolved(g: Graph, negLog: real -> real, rate: real, popSize: nat, pops: seq<seq<Path>>, ms: seq<seq<Mating>>) {
    && |ms| + 1 == |pops|
    && forall i :: 0 <= i < |ms| ==> Bred(g, negLog, rate, popSize, pops[i], ms[i], pops[i + 1])
  }

  /** `next` is the generation the `popSize` matings `ms` over `population` produce. */
  ghost predicate Bred(g: Graph, negLog: real -> real, rate: real, popSize: nat, population: seq<Path>,
                       ms: seq<Mating>, next: seq<Path>) {
    |ms| == popSize && MatingsFrom(g, negLog, population, rate, ms) && Generation(ms) == Ok(next)
  }

  /** Restates `Bred` for equal arguments; a solver aid that models nothing of its own. */
  lemma BredAgain(g: Graph, negLog: real -> real, rate: real, popSize: nat, population: seq<Path>,
                  ms: seq<Mating>, next: seq<Path>, population': seq<Path>, ms': seq<Mating>, next': seq<Path>)
    requires Bred(g, negLog, rate, popSize, population, ms, next)
    requires population' == population && ms' == ms && next' == next
    ensures Bred(g, negLog, rate, popSize, population', ms', next')
  {
  }

  lemma EvolvedExtend(g: Graph, negLog: real -> real, rate: real, popSize: nat, pops: seq<seq<Path>>,
                      ms: seq<seq<Mating>>, last: seq<Mating>, next: seq<Path>)
    requires Evolved(g, negLog, rate, popSize, pops, ms)
    requires Bred(g, negLog, rate, popSize, pops[|pops| - 1], last, next)
    ensures Evolved(g, negLog, rate, popSize, pops + [next], ms + [last])
  {
    var pops', ms' := pops + [next], ms + [last];
    forall i | 0 <= i < |ms'| ensures Bred(g, negLog, rate, popSize, pops'[i], ms'[i], pops'[i + 1]) {
      if i < |ms| {
        BredAgain(g, negLog, rate, popSize, pops[i], ms[i], pops[i + 1], pops'[i], ms'[i], pops'[i + 1]);
      } else {
        BredAgain(g, negLog, rate, popSize, pops[|pops| - 1], last, next, pops'[i], ms'[i], pops'[i + 1]);
      }
    }
  }

  /** Adding a generation and updating the best by `UpdateBest` keeps the best record right. */
  lemma BestExtended(g: Graph, negLog: real -> real, s: Node, t: Node, pops: seq<seq<Path>>, population: seq<Path>,
                     oldPath: Option<Path>, oldFit: real, bp: Option<Path>, bf: real)
    requires |pops| >= 1 && AllMembers(g, negLog, s, t, pops) && Members(g, negLog, population, s, t)
    requires BestOfGenerations(g, negLog, s, t, pops, oldPath, oldFit)
    requires bf >= oldFit
    requires forall j :: 0 <= j < |population| ==> Fitness(g, negLog, Some(population[j])) <= bf
    requires (bp == oldPath && bf == oldFit)
             || exists m :: && 0 <= m < |population| && bp == Some(population[m]) && bf == Fitness(g, negLog, bp) > oldFit
                            && forall j :: 0 <= j < m ==> Fitness(g, negLog, Some(population[j])) < bf
    ensures AllMembers(g, negLog, s, t, pops + [population])
    ensures BestOfGenerations(g, negLog, s, t, pops + [population], bp, bf)
  {
    var all := pops + [population];
    assert forall i :: 0 <= i < |pops| ==> all[i] == pops[i];
    assert all[|pops|] == population;
    assert AllMembers(g, negLog, s, t, all);
    if bp.None? && population != [] {
      RouteScoredPositive(g, negLog, population[0], s, t);
      assert false;
    }
    if bp.Some? && !(bp == oldPath && bf == oldFit) {
      var m :| && 0 <= m < |population| && bp == Some(population[m]) && bf == Fitness(g, negLog, bp) > oldFit
               && forall j :: 0 <= j < m ==> Fitness(g, negLog, Some(population[j])) < bf;
      forall i', j | 1 <= i' < |pops| && 0 <= j < |all[i']|
        ensures Fitness(g, negLog, Some(all[i'][j])) < bf
      {
        assert FitAtMost(g, negLog, s, t, pops[i'], j, oldFit);
      }
      assert FirstReaching(g, negLog, s, t, all, bp.value, bf, |pops|, m);
    }
    if bp.Some? && bp == oldPath && bf == oldFit {
      var i, m :| FirstReaching(g, negLog, s, t, pops, bp.value, bf, i, m);
      assert FirstReaching(g, negLog, s, t, all, bp.value, bf, i, m);
    }
    forall i, j | 1 <= i < |all| && 0 <= j < |all[i]| ensures FitAtMost(g, negLog, s, t, all[i], j, bf) {
      if i < |pops| {
        assert FitAtMost(g, negLog, s, t, pops[i], j, oldFit);
      }
    }
  }

  lemma RouteScoredPositive(g: Graph, negLog: real -> real, p: Path, s: Node, t: Node)
    requires Member(g, negLog, p, s, t)
    ensures Fitness(g, negLog, Some(p)) > 0.0
  {
    FitnessOfCostInUnit(WeightedSum(g, negLog, p, DefaultWeights));
  }

  // ---------------------------------------------------------------------------
  // run_ga
  // ---------------------------------------------------------------------------

  datatype GaReport = GaReport(bestPath: Path, fitness: real, delay: real, reliability: real, cost: real)

  /** The entry point of the interface: the best path with its fitness, delay, reliability and
      default weighted cost. When no path was kept the reliability computation raises. */
  method RunGa(source: Node, target: Node, g: Graph, negLog: real -> real, popSize: nat, generations: nat,
               mutationRate: real, fuel: nat)
    returns (r: Result<GaReport>, ghost populations: seq<seq<Path>>, ghost matings: seq<seq<Mating>>)
    requires Valid(g) && InRange(g) && NegLogLaws(negLog) && HasNode(g, source)
    ensures AllMembers(g, negLog, source, target, populations)
    ensures |populations| > 0 && r != Err(EmptyRange) ==> Evolved(g, negLog, mutationRate, popSize, populations, matings)
    ensures r.Ok? ==> BestOfGenerations(g, negLog, source, target, populations, Some(r.value.bestPath), r.value.fitness)
    ensures r.Ok? ==> var rep := r.value;
                      && Member(g, negLog, rep.bestPath, source, target)
                      && rep.delay == PathDelay(g, rep.bestPath)
                      && rep.reliability == PathReliability(g, rep.bestPath)
                      && rep.cost == WeightedSum(g, negLog, rep.bestPath, DefaultWeights)
                      && rep.fitness == FitnessOfCost(rep.cost)
                      && 0.0 < rep.reliability <= 1.0
                      && PathReliabilityCost(g, negLog, rep.bestPath) == negLog(rep.reliability)
    ensures r.Err? ==> r.error in {EmptySequence, OutOfFuel, SampleLargerThanPopulation, EmptyRange, NoneHasNoLength}
    ensures |populations| > 0 ==> |populations[0]| == popSize
    ensures r.Err? && r.error == SampleLargerThanPopulation ==>
              popSize > 0 && generations > 0 && |populations| > 0 && |populations[|populations| - 1]| < TournamentSize
    ensures r == Err(EmptySequence) ==> populations == [] && exists w :: Stranded(g, w, source, target, DefaultMaxHops)
    ensures r == Err(OutOfFuel) ==> populations == [] && (fuel < popSize || exists w :: Missed(g, w, source, target, DefaultMaxHops))
    ensures r == Err(EmptyRange) ==> 0.0 <= mutationRate && EvolvedUntilRaised(g, negLog, mutationRate, popSize, populations, matings)
    ensures r.Err? && r.error == NoneHasNoLength ==>
              |populations| == generations + 1 && forall i :: 1 <= i < |populations| ==> populations[i] == []
  {
    var ga;
    ga, populations, matings := GeneticAlgorithm(source, target, g, negLog, popSize, generations, mutationRate, fuel);
    if ga.Err? {
      return Err(ga.error), populations, matings;
    }
    var (bestPath, bestFit) := ga.value;
    var delay := TotalDelay(g, bestPath);
    if bestPath.None? {
      return Err(NoneHasNoLength), populations, matings;
    }
    var p := bestPath.value;
    ValidPathIsWalk(g, p, None);
    var reliability := TotalReliability(g, p);
    var cost := WeightedSum(g, negLog, p, DefaultWeights);
    ReliabilityCostIsNegLogOfReliability(g, negLog, p);
    InRangeReliability(g, p);
    return Ok(GaReport(p, bestFit, delay, reliability, cost)), populations, matings;
  }

  lemma InRangeReliability(g: Graph, p: Path)
    requires Valid(g) && InRange(g) && IsWalk(g, p) && NodesIn(g, p) && |p| >= 2
    ensures PathReliability(g, p) <= 1.0
  {
    forall n | n in g.nodes ensures g.nodes[n].nodeReliability.Some? ==> 0.0 <= g.nodes[n].nodeReliability.value <= 1.0 {
      assert NodeInRange(g.nodes[n]);
    }
    forall e | e in g.edges ensures g.edges[e].linkReliability.Some? ==> 0.0 <= g.edges[e].linkReliability.value <= 1.0 {
      assert EdgeInRange(g.edges[e]);
    }
    PathReliabilityInUnit(g, p);
  }
}

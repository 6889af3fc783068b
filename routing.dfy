/**
 The two computations of the route handler: the bandwidth filter it applies to the
 network before the ant colony or the Q-learning agent runs, and the bottleneck, maximum
 capacity and usage figures it reports for the path that comes back.
 */
module Routing {
  import opened Graphs
  import opened Metrics

  // ---------------------------------------------------------------------------
  // filter_graph_by_bandwidth
  // ---------------------------------------------------------------------------

  /** A link survives the filter when its bandwidth, 0 when missing, reaches the bound. */
  predicate Keeps(a: EdgeAttrs, minBandwidth: real) {
    GetOr(a.bandwidth, 0.0) >= minBandwidth
  }

  /** The links the filter takes out. */
  function Dropped(g: Graph, minBandwidth: real): set<Edge> {
    set e | e in g.edges.Keys && !Keeps(g.edges[e], minBandwidth)
  }

  /** The adjacency list `s` of `u` without the neighbours `v` whose link `(u, v)` is in `r`,
      in the order of `s`. */
  function DropLinks(s: seq<Node>, u: Node, r: set<Edge>): (t: seq<Node>)
    ensures forall v :: v in t <==> v in s && (u, v) !in r
    ensures Distinct(s) ==> Distinct(t)
  {
    if |s| == 0 then []
    else if (u, s[0]) in r then DropLinks(s[1..], u, r)
    else [s[0]] + DropLinks(s[1..], u, r)
  }

  lemma {:induction false} DropLinksNothing(s: seq<Node>, u: Node)
    ensures DropLinks(s, u, {}) == s
  {
    if |s| > 0 {
      DropLinksNothing(s[1..], u);
      assert s == [s[0]] + s[1..];
    }
  }

  lemma {:induction false} DropLinksTwice(s: seq<Node>, u: Node, r1: set<Edge>, r2: set<Edge>)
    ensures DropLinks(DropLinks(s, u, r1), u, r2) == DropLinks(s, u, r1 + r2)
  {
    if |s| > 0 {
      DropLinksTwice(s[1..], u, r1, r2);
      if (u, s[0]) !in r1 {
        var t := DropLinks(s[1..], u, r1);
        assert ([s[0]] + t)[0] == s[0] && ([s[0]] + t)[1..] == t;
      }
    }
  }

  /** The graph without the links in `r`: the same nodes, every adjacency list without the
      ends of its removed links, and the attributes of the links left. */
  function Removing(g: Graph, r: set<Edge>): Graph {
    Graph(g.nodes,
          map w | w in g.adj :: DropLinks(g.adj[w], w, r),
          map e | e in g.edges && e !in r :: g.edges[e])
  }

  /** `remove_edge(u, v)` on an undirected graph: both orientations of the link go, and
      each end leaves the other's adjacency list; nothing else changes. */
  function RemoveEdge(g: Graph, u: Node, v: Node): (h: Graph)
    ensures h.nodes == g.nodes && h.adj.Keys == g.adj.Keys
    ensures forall e :: e in h.edges <==> e in g.edges && e != (u, v) && e != (v, u)
    ensures forall e :: e in h.edges ==> h.edges[e] == g.edges[e]
    ensures forall w, x :: Adjacent(h, w, x) <==> Adjacent(g, w, x) && (w, x) != (u, v) && (w, x) != (v, u)
  {
    Removing(g, {(u, v), (v, u)})
  }

  lemma RemovingNothing(g: Graph)
    ensures Removing(g, {}) == g
  {
    var h := Removing(g, {});
    forall w | w in g.adj ensures h.adj[w] == g.adj[w] {
      DropLinksNothing(g.adj[w], w);
    }
    assert h.adj == g.adj;
    assert h.edges == g.edges;
  }

  lemma RemovingTwice(g: Graph, r1: set<Edge>, r2: set<Edge>)
    ensures Removing(Removing(g, r1), r2) == Removing(g, r1 + r2)
  {
    var h, k := Removing(Removing(g, r1), r2), Removing(g, r1 + r2);
    forall w | w in g.adj ensures h.adj[w] == k.adj[w] {
      DropLinksTwice(g.adj[w], w, r1, r2);
    }
    assert h.adj == k.adj;
    assert h.edges == k.edges;
  }

  /** The graph the filter returns: `g` without the links whose bandwidth misses the bound. */
  function Filtered(g: Graph, minBandwidth: real): Graph {
    Removing(g, Dropped(g, minBandwidth))
  }

  /** `filter_graph_by_bandwidth`: on a copy of `g`, remove every link whose bandwidth
      (0 when missing) is below the bound. The links are visited in any order. Each neighbour
      list keeps the order of `g`; the order `G.copy()` rebuilds from node order is not modelled. */
  method FilterGraphByBandwidth(g: Graph, minBandwidth: real) returns (gf: Graph)
    requires Valid(g)
    ensures gf == Filtered(g, minBandwidth)
  {
    ghost var dropped := Dropped(g, minBandwidth);
    gf := g;
    RemovingNothing(g);
    ghost var removed: set<Edge> := {};
    var todo := g.edges.Keys;
    forall x | x in dropped ensures x in todo && (x.1, x.0) in todo {
      assert HasEdge(g, x.0, x.1);
    }
    while todo != {}
      invariant todo <= g.edges.Keys
      invariant gf == Removing(g, removed)
      invariant RemovedSoFar(removed, dropped, todo)
      decreases |todo|
    {
      var e :| e in todo;
      var (u, v) := e;
      ghost var before := removed;
      if !Keeps(g.edges[e], minBandwidth) {
        RemovingTwice(g, removed, {(u, v), (v, u)});
        gf := RemoveEdge(gf, u, v);
        removed := removed + {(u, v), (v, u)};
      }
      RemovedStep(g, minBandwidth, before, removed, todo, e);
      todo := todo - {e};
    }
    assert removed == dropped;
  }

  /** The loop invariant of the filter: a dropped link is removed, in both orientations,
      once either orientation has been visited. */
  ghost predicate RemovedSoFar(removed: set<Edge>, dropped: set<Edge>, todo: set<Edge>) {
    forall x :: x in removed <==> x in dropped && !(x in todo && (x.1, x.0) in todo)
  }

  lemma RemovedStep(g: Graph, minBandwidth: real, removed: set<Edge>, removed': set<Edge>, todo: set<Edge>, e: Edge)
    requires Valid(g) && e in todo && todo <= g.edges.Keys
    requires RemovedSoFar(removed, Dropped(g, minBandwidth), todo)
    requires removed' == if Keeps(g.edges[e], minBandwidth) then removed else removed + {e, (e.1, e.0)}
    ensures RemovedSoFar(removed', Dropped(g, minBandwidth), todo - {e})
  {
    assert HasEdge(g, e.0, e.1) && HasEdge(g, e.1, e.0) && g.edges[(e.1, e.0)] == g.edges[e];
  }

  /** What the filter keeps: every node, exactly the links whose bandwidth reaches the
      bound, with their attributes, and the adjacency that goes with them. */
  lemma FilteredLinks(g: Graph, minBandwidth: real)
    ensures Filtered(g, minBandwidth).nodes == g.nodes
    ensures forall u, v :: HasEdge(Filtered(g, minBandwidth), u, v) <==>
                             HasEdge(g, u, v) && Keeps(g.edges[(u, v)], minBandwidth)
    ensures forall e :: e in Filtered(g, minBandwidth).edges ==> Filtered(g, minBandwidth).edges[e] == g.edges[e]
    ensures forall u, v :: Adjacent(Filtered(g, minBandwidth), u, v) <==>
                             Adjacent(g, u, v) && !(HasEdge(g, u, v) && !Keeps(g.edges[(u, v)], minBandwidth))
  {
  }

  /** The filter keeps a graph undirected. */
  lemma FilteredValid(g: Graph, minBandwidth: real)
    requires Valid(g)
    ensures Valid(Filtered(g, minBandwidth))
  {
    var gf := Filtered(g, minBandwidth);
    FilteredLinks(g, minBandwidth);
    forall u, v ensures Adjacent(gf, u, v) <==> HasEdge(gf, u, v) {
      assert Adjacent(g, u, v) <==> HasEdge(g, u, v);
    }
  }

  /** Filtering twice keeps the links that pass both bounds; in particular filtering again
      with the same bound changes nothing. */
  lemma FilterTwice(g: Graph, b1: real, b2: real)
    ensures Filtered(Filtered(g, b1), b2) == Filtered(g, Max(b1, b2))
  {
    var gf := Filtered(g, b1);
    RemovingTwice(g, Dropped(g, b1), Dropped(gf, b2));
    assert Dropped(g, b1) + Dropped(gf, b2) == Dropped(g, Max(b1, b2));
  }

  lemma FilterIdempotent(g: Graph, minBandwidth: real)
    ensures Filtered(Filtered(g, minBandwidth), minBandwidth) == Filtered(g, minBandwidth)
  {
    FilterTwice(g, minBandwidth, minBandwidth);
    assert Max(minBandwidth, minBandwidth) == minBandwidth;
  }

  /** A higher bound keeps fewer links. */
  lemma FilterAntitone(g: Graph, b1: real, b2: real)
    requires b1 <= b2
    ensures Filtered(g, b2).edges.Keys <= Filtered(g, b1).edges.Keys
  {
  }

  /** A path valid in the filtered graph, with or without a bound, is valid in `g` under the
      filter's bound, and conversely. */
  lemma FilteredValidPath(g: Graph, minBandwidth: real, p: Path, mb: Option<real>)
    ensures ValidPath(Filtered(g, minBandwidth), p, mb) ==> ValidPath(g, p, Some(minBandwidth))
    ensures ValidPath(g, p, Some(minBandwidth)) ==> ValidPath(Filtered(g, minBandwidth), p, None)
  {
    var gf := Filtered(g, minBandwidth);
    assert gf.nodes == g.nodes;
    forall i | 0 <= i < |p| ensures NodeAt(gf, p, i) == NodeAt(g, p, i) {
    }
    if ValidPath(gf, p, mb) {
      forall i | 0 <= i < |p| - 1 ensures LinkValid(g, p, i, Some(minBandwidth)) {
        assert LinkValid(gf, p, i, mb);
      }
    }
    if ValidPath(g, p, Some(minBandwidth)) {
      forall i | 0 <= i < |p| - 1 ensures LinkValid(gf, p, i, None) {
        assert LinkValid(g, p, i, Some(minBandwidth));
      }
    }
  }

  // ---------------------------------------------------------------------------
  // Bottleneck, maximum capacity and usage
  // ---------------------------------------------------------------------------

  /** Every link of `p` is in `g` and carries a bandwidth, as the strict lookup
      `edges[u, v]["bandwidth"]` needs. */
  predicate BandwidthsPresent(g: Graph, p: Path) {
    forall i :: 0 <= i < |p| - 1 ==> LinkAt(g, p, i) && LinkAttrs(g, p, i).bandwidth.Some?
  }

  /** The bandwidths of the links of `p`, in path order. */
  function Bandwidths(g: Graph, p: Path): (bws: seq<real>)
    requires BandwidthsPresent(g, p)
    ensures |bws| == LinkCount(p)
    ensures forall i :: 0 <= i < |bws| ==> bws[i] == LinkAttrs(g, p, i).bandwidth.value
  {
    seq(LinkCount(p), i requires 0 <= i < LinkCount(p) => LinkAttrs(g, p, i).bandwidth.value)
  }

  function Least(s: seq<real>): (m: real)
    requires |s| > 0
    ensures m in s && forall i :: 0 <= i < |s| ==> m <= s[i]
  {
    if |s| == 1 then s[0] else Min(s[0], Least(s[1..]))
  }

  function Greatest(s: seq<real>): (m: real)
    requires |s| > 0
    ensures m in s && forall i :: 0 <= i < |s| ==> s[i] <= m
  {
    if |s| == 1 then s[0] else Max(s[0], Greatest(s[1..]))
  }

  /** `bottleneck`: the smallest bandwidth on the path, 0 for a path without links. */
  function Bottleneck(g: Graph, p: Path): (b: real)
    requires BandwidthsPresent(g, p)
    ensures |p| < 2 ==> b == 0.0
    ensures |p| >= 2 ==> (exists i :: 0 <= i < |p| - 1 && b == LinkAttrs(g, p, i).bandwidth.value)
                         && forall i :: 0 <= i < |p| - 1 ==> b <= LinkAttrs(g, p, i).bandwidth.value
  {
    var bws := Bandwidths(g, p);
    if |bws| == 0 then 0.0 else Least(bws)
  }

  /** `max_bw`: the largest bandwidth on the path, 0 for a path without links. */
  function MaxCapacity(g: Graph, p: Path): (b: real)
    requires BandwidthsPresent(g, p)
    ensures |p| < 2 ==> b == 0.0
    ensures |p| >= 2 ==> (exists i :: 0 <= i < |p| - 1 && b == LinkAttrs(g, p, i).bandwidth.value)
                         && forall i :: 0 <= i < |p| - 1 ==> LinkAttrs(g, p, i).bandwidth.value <= b
  {
    var bws := Bandwidths(g, p);
    if |bws| == 0 then 0.0 else Greatest(bws)
  }

  lemma BottleneckAtMostCapacity(g: Graph, p: Path)
    requires BandwidthsPresent(g, p)
    ensures Bottleneck(g, p) <= MaxCapacity(g, p)
  {
    if |p| >= 2 {
      assert Bottleneck(g, p) <= LinkAttrs(g, p, 0).bandwidth.value <= MaxCapacity(g, p);
    }
  }

  /** `usage`: the demanded bandwidth as a percentage of the bottleneck, with a demand of
      100 standing in when none is given, and 0 when the bottleneck is not positive. */
  function Usage(minBandwidth: real, bottleneck: real): (u: real)
    ensures bottleneck <= 0.0 ==> u == 0.0
    ensures bottleneck > 0.0 && minBandwidth > 0.0 ==> u > 0.0 && (u <= 100.0 <==> minBandwidth <= bottleneck)
    ensures bottleneck > 0.0 && minBandwidth <= 0.0 ==> u > 0.0 && (u <= 100.0 <==> 100.0 <= bottleneck)
  {
    if bottleneck > 0.0 then
      var demand := if minBandwidth > 0.0 then minBandwidth else 100.0;
      RatioPercent(demand, bottleneck);
      demand / bottleneck * 100.0
    else 0.0
  }

  lemma RatioPercent(a: real, b: real)
    requires a > 0.0 && b > 0.0
    ensures a / b * 100.0 > 0.0
    ensures a / b * 100.0 <= 100.0 <==> a <= b
  {
    var q := a / b;
    assert q * b == a;
    if q > 1.0 {
      assert q * b > b;
    }
  }

  /** On the filtered graph with a positive bound every link of a path carries at least the
      bound, so the bottleneck does too and the usage never exceeds 100 percent. */
  lemma UsageOnFilteredAtMostFull(g: Graph, minBandwidth: real, p: Path)
    requires minBandwidth > 0.0 && |p| >= 2 && IsWalk(Filtered(g, minBandwidth), p)
    ensures BandwidthsPresent(Filtered(g, minBandwidth), p)
    ensures Bottleneck(Filtered(g, minBandwidth), p) >= minBandwidth
    ensures 0.0 < Usage(minBandwidth, Bottleneck(Filtered(g, minBandwidth), p)) <= 100.0
  {
    var gf := Filtered(g, minBandwidth);
    FilteredLinks(g, minBandwidth);
    forall i | 0 <= i < |p| - 1
      ensures LinkAt(gf, p, i) && LinkAttrs(gf, p, i).bandwidth.Some? && LinkAttrs(gf, p, i).bandwidth.value >= minBandwidth
    {
      assert LinkAt(gf, p, i);
      assert Keeps(g.edges[(p[i], p[i + 1])], minBandwidth);
    }
    var i :| 0 <= i < |p| - 1 && Bottleneck(gf, p) == LinkAttrs(gf, p, i).bandwidth.value;
  }
}

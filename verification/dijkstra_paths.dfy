/**
 * The graphs the reference Dijkstra of the test suite runs on, and what a shortest
 * distance is: the least total weight of a walk from the start.
 */
module DijkstraPaths {

  /** One adjacency record `{neighbor, weight}`. */
  datatype Edge = Edge(neighbor: int, weight: int)

  /** The test's graph object: node number to its list of adjacency records. */
  type Graph = map<int, seq<Edge>>

  /**
   * `graph[node] || []`: a node without a key has no outgoing edges, and a node with one has
   * exactly its recorded list; under the generator's weights each weighs at least 1.
   */
  function Neighbors(g: Graph, n: int): (es: seq<Edge>)
    ensures n !in g ==> es == []
    ensures n in g ==> es == g[n]
    ensures PositiveWeights(g) ==> forall e :: e in es ==> e.weight >= 1
  {
    if n in g then g[n] else []
  }

  /** The generated weights are integers of at least 1. */
  ghost predicate PositiveWeights(g: Graph)
  {
    forall n, e :: n in g && e in g[n] ==> e.weight >= 1
  }

  /** A step of a walk: a recorded edge together with the node it leaves. */
  datatype Arc = Arc(from: int, to: int, weight: int)

  ghost predicate IsArc(g: Graph, a: Arc)
  {
    Edge(a.to, a.weight) in Neighbors(g, a.from)
  }

  /** Where the walk `w` from `s` ends. */
  function End(s: int, w: seq<Arc>): int
  {
    if |w| == 0 then s else w[|w| - 1].to
  }

  /** `w` is a walk along recorded edges that leaves from `s`: each arc leaves where the previous one ended. */
  ghost predicate IsWalk(g: Graph, s: int, w: seq<Arc>)
    decreases |w|
  {
    || |w| == 0
    || (&& IsWalk(g, s, w[..|w| - 1])
        && IsArc(g, w[|w| - 1])
        && w[|w| - 1].from == End(s, w[..|w| - 1]))
  }

  function Cost(w: seq<Arc>): int
  {
    if |w| == 0 then 0 else Cost(w[..|w| - 1]) + w[|w| - 1].weight
  }

  ghost predicate WalkTo(g: Graph, s: int, v: int, w: seq<Arc>)
  {
    IsWalk(g, s, w) && End(s, w) == v
  }

  ghost predicate Reachable(g: Graph, s: int, v: int)
  {
    exists w :: WalkTo(g, s, v, w)
  }

  /** `d` is the weight of some walk from `s` to `v`, and no walk from `s` to `v` weighs less. */
  ghost predicate IsShortest(g: Graph, s: int, v: int, d: int)
  {
    && (exists w :: WalkTo(g, s, v, w) && Cost(w) == d)
    && (forall w :: WalkTo(g, s, v, w) ==> d <= Cost(w))
  }

  /** `dist` maps exactly the nodes reachable from `s`, each to its shortest distance. */
  ghost predicate ShortestDistances(g: Graph, s: int, dist: map<int, int>)
  {
    && (forall v :: v in dist ==> IsShortest(g, s, v, dist[v]))
    && (forall v :: Reachable(g, s, v) ==> v in dist)
  }

  lemma WalkPrefix(g: Graph, s: int, w: seq<Arc>)
    requires IsWalk(g, s, w) && |w| > 0
    ensures IsWalk(g, s, w[..|w| - 1])
    ensures IsArc(g, w[|w| - 1]) && w[|w| - 1].from == End(s, w[..|w| - 1])
  {
  }

  lemma WalkExtend(g: Graph, s: int, w: seq<Arc>, a: Arc)
    requires IsWalk(g, s, w) && IsArc(g, a) && a.from == End(s, w)
    ensures WalkTo(g, s, a.to, w + [a]) && Cost(w + [a]) == Cost(w) + a.weight
  {
    var w' := w + [a];
    assert w'[..|w'| - 1] == w && w'[|w'| - 1] == a;
  }

  /** Every walk weighs at least nothing when weights are positive. */
  lemma {:induction false} CostNonNegative(g: Graph, s: int, w: seq<Arc>)
    requires PositiveWeights(g) && IsWalk(g, s, w)
    ensures Cost(w) >= 0
    decreases |w|
  {
    if |w| > 0 {
      WalkPrefix(g, s, w);
      CostNonNegative(g, s, w[..|w| - 1]);
      assert Edge(w[|w| - 1].to, w[|w| - 1].weight) in g[w[|w| - 1].from];
    }
  }

  /**
   * With positive weights, any map of shortest distances gives the start distance 0, the value
   * the search records for it first, and gives no node a negative distance.
   */
  lemma StartAtZero(g: Graph, s: int, dist: map<int, int>)
    requires PositiveWeights(g) && ShortestDistances(g, s, dist)
    ensures s in dist && dist[s] == 0
    ensures forall v :: v in dist ==> dist[v] >= 0
  {
    assert WalkTo(g, s, s, []);
    assert Reachable(g, s, s);
    forall v | v in dist
      ensures dist[v] >= 0
    {
      var w :| WalkTo(g, s, v, w) && Cost(w) == dist[v];
      CostNonNegative(g, s, w);
    }
  }

  /** The shortest distances are determined by the graph: two maps that both state them are equal. */
  lemma ShortestDistancesUnique(g: Graph, s: int, d1: map<int, int>, d2: map<int, int>)
    requires ShortestDistances(g, s, d1) && ShortestDistances(g, s, d2)
    ensures d1 == d2
  {
    forall v | v in d1
      ensures v in d2 && d1[v] == d2[v]
    {
      var w1 :| WalkTo(g, s, v, w1) && Cost(w1) == d1[v];
      assert Reachable(g, s, v);
      var w2 :| WalkTo(g, s, v, w2) && Cost(w2) == d2[v];
    }
    forall v | v in d2
      ensures v in d1
    {
      var w2 :| WalkTo(g, s, v, w2) && Cost(w2) == d2[v];
      assert Reachable(g, s, v);
    }
  }

  /** In a graph whose nodes have no outgoing edges, only the start is reached, at distance 0. */
  lemma EdgelessGraph(g: Graph, s: int, dist: map<int, int>)
    requires forall n :: n in g ==> g[n] == []
    requires ShortestDistances(g, s, dist)
    ensures dist == map[s := 0]
  {
    assert WalkTo(g, s, s, []);
    assert Reachable(g, s, s);
    forall v | v in dist
      ensures v == s && dist[v] == 0
    {
      var w :| WalkTo(g, s, v, w) && Cost(w) == dist[v];
      if |w| > 0 {
        assert false;
      }
      assert dist[v] <= Cost([]);
    }
  }
}

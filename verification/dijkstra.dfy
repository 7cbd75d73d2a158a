/**
 * The reference Dijkstra the test suite checks the library against (`dijkstraManual`):
 * a priority list that is sorted and shifted on every round, a visited set that makes
 * stale entries be skipped when they come off the list, and relaxation on strict
 * improvement only.
 */
module Dijkstra {
  import opened DijkstraPaths

  /** A priority-list entry `[node, distance]`. */
  datatype Entry = Entry(node: int, dist: int)

  /** The nodes a run can ever touch: the start, every key and every listed neighbour. */
  ghost function Nodes(g: Graph, start: int): set<int>
  {
    {start} + g.Keys + (set n, e | n in g && e in g[n] :: e.neighbor)
  }

  /** Every recorded distance is the weight of a recorded walk. */
  ghost predicate Witnessed(g: Graph, start: int, dist: map<int, int>, wit: map<int, seq<Arc>>)
  {
    forall n :: n in dist ==> n in wit && WalkTo(g, start, n, wit[n]) && Cost(wit[n]) == dist[n]
  }

  /** Visited nodes hold their final distance: no walk to them weighs less. */
  ghost predicate Final(g: Graph, start: int, dist: map<int, int>, visited: set<int>)
  {
    forall n, w :: n in visited && n in dist && WalkTo(g, start, n, w) ==> dist[n] <= Cost(w)
  }

  /** Every edge out of `u` leads to a visited node or to one recorded no farther than through `u`. */
  ghost predicate Relaxed(g: Graph, dist: map<int, int>, visited: set<int>, u: int)
    requires u in dist
  {
    forall e :: e in Neighbors(g, u) ==>
      e.neighbor in visited || (e.neighbor in dist && dist[e.neighbor] <= dist[u] + e.weight)
  }

  /** Every recorded, unvisited node has an entry carrying its current distance. */
  ghost predicate Queued(dist: map<int, int>, visited: set<int>, pq: seq<Entry>)
  {
    forall n :: n in dist && n !in visited ==> Entry(n, dist[n]) in pq
  }

  /** Every entry names a recorded node and is no better than its current distance. */
  ghost predicate Stale(dist: map<int, int>, pq: seq<Entry>)
  {
    forall k :: 0 <= k < |pq| ==> pq[k].node in dist && dist[pq[k].node] <= pq[k].dist
  }

  /** No entry is closer than a visited node. */
  ghost predicate Below(dist: map<int, int>, visited: set<int>, pq: seq<Entry>)
  {
    forall n, k :: n in visited && n in dist && 0 <= k < |pq| ==> dist[n] <= pq[k].dist
  }

  /** Recorded distances are non-negative and only the start is at 0. */
  ghost predicate Distances(start: int, dist: map<int, int>)
  {
    && start in dist && dist[start] == 0
    && forall n :: n in dist ==> dist[n] >= 0 && (dist[n] == 0 ==> n == start)
  }

  /** Every visited node outside `except` has its edges relaxed. */
  ghost predicate AllRelaxed(g: Graph, dist: map<int, int>, visited: set<int>, except: set<int>)
  {
    forall u :: u in visited && u !in except ==> u in dist && Relaxed(g, dist, visited, u)
  }

  /** Every recorded node and every queued node is one the graph mentions. */
  ghost predicate InNodes(g: Graph, start: int, dist: map<int, int>, pq: seq<Entry>)
  {
    && dist.Keys <= Nodes(g, start)
    && forall k :: 0 <= k < |pq| ==> pq[k].node in Nodes(g, start)
  }

  lemma NeighborInNodes(g: Graph, start: int, x: int, e: Edge)
    requires e in Neighbors(g, x)
    ensures e.neighbor in Nodes(g, start)
  {
    assert x in g && e in g[x];
  }

  /** Relaxing more edges keeps the edges already relaxed relaxed, as distances only decrease. */
  lemma RelaxedPrefix(edges: seq<Edge>, j: nat, visited: set<int>, d: int, dist: map<int, int>, dist1: map<int, int>)
    requires j < |edges|
    requires forall i :: 0 <= i < j ==>
      edges[i].neighbor in visited || (edges[i].neighbor in dist && dist[edges[i].neighbor] <= d + edges[i].weight)
    requires edges[j].neighbor in visited || (edges[j].neighbor in dist1 && dist1[edges[j].neighbor] <= d + edges[j].weight)
    requires dist.Keys <= dist1.Keys && forall n :: n in dist ==> dist1[n] <= dist[n]
    ensures forall i :: 0 <= i < j + 1 ==>
      edges[i].neighbor in visited || (edges[i].neighbor in dist1 && dist1[edges[i].neighbor] <= d + edges[i].weight)
  {
  }

  /**
   * `pq.sort((a, b) => a[1] - b[1])` followed by `pq.shift()`. The sort is stable, so the entry
   * shifted off is the earliest-queued entry of least distance; it is found here in place.
   */
  method ExtractMin(pq: seq<Entry>) returns (k: nat)
    requires |pq| > 0
    ensures k < |pq|
    ensures forall j :: 0 <= j < |pq| ==> pq[k].dist <= pq[j].dist
    ensures forall j :: 0 <= j < k ==> pq[k].dist < pq[j].dist
  {
    k := 0;
    var j := 1;
    while j < |pq|
      invariant 1 <= j <= |pq| && k < j
      invariant forall i :: 0 <= i < j ==> pq[k].dist <= pq[i].dist
      invariant forall i :: 0 <= i < k ==> pq[k].dist < pq[i].dist
    {
      if pq[j].dist < pq[k].dist {
        k := j;
      }
      j := j + 1;
    }
  }

  /**
   * A walk from the start to a node not yet visited weighs at least as much as some entry of
   * the list: it leaves the visited region through an edge that has been relaxed.
   */
  lemma {:induction false} Frontier(g: Graph, start: int, dist: map<int, int>, visited: set<int>, pq: seq<Entry>, w: seq<Arc>)
    requires PositiveWeights(g) && Distances(start, dist) && visited <= dist.Keys
    requires Queued(dist, visited, pq) && Final(g, start, dist, visited)
    requires AllRelaxed(g, dist, visited, {})
    requires IsWalk(g, start, w) && End(start, w) !in visited
    ensures exists k :: 0 <= k < |pq| && pq[k].dist <= Cost(w)
    decreases |w|
  {
    if |w| == 0 {
      assert Entry(start, 0) in pq;
    } else {
      var p := w[..|w| - 1];
      var a := w[|w| - 1];
      WalkPrefix(g, start, w);
      assert Edge(a.to, a.weight) in g[a.from];
      if End(start, p) !in visited {
        Frontier(g, start, dist, visited, pq, p);
      } else {
        var u := End(start, p);
        assert u in dist && Relaxed(g, dist, visited, u);
        assert Edge(a.to, a.weight) in Neighbors(g, u);
        assert WalkTo(g, start, u, p);
        assert Entry(a.to, dist[a.to]) in pq;
      }
    }
  }

  /**
   * The list invariants and what recorded distances mean, which hold at every point of a run
   * apart from the relaxation of the node being visited.
   */
  ghost predicate Core(g: Graph, start: int, dist: map<int, int>, visited: set<int>, pq: seq<Entry>, wit: map<int, seq<Arc>>)
  {
    && PositiveWeights(g) && Distances(start, dist) && visited <= dist.Keys
    && Stale(dist, pq) && Queued(dist, visited, pq) && Below(dist, visited, pq)
    && Witnessed(g, start, dist, wit) && Final(g, start, dist, visited)
    && InNodes(g, start, dist, pq)
  }

  /**
   * What relaxing one edge towards `n` may do: nothing, or record a strictly better distance
   * for an unvisited `n` and queue it.
   */
  ghost predicate Updated(dist: map<int, int>, pq: seq<Entry>, visited: set<int>, n: int, dist1: map<int, int>, pq1: seq<Entry>)
  {
    || (dist1 == dist && pq1 == pq)
    || (&& n !in visited && n in dist1
        && dist1 == dist[n := dist1[n]] && pq1 == pq + [Entry(n, dist1[n])]
        && (n in dist ==> dist1[n] < dist[n]))
  }

  /** Recorded distances only decrease from `dist0` to `dist`, and those of visited nodes stay fixed. */
  ghost predicate Monotone(dist0: map<int, int>, dist: map<int, int>, visited: set<int>)
  {
    && dist0.Keys <= dist.Keys
    && (forall n :: n in dist0 ==> dist[n] <= dist0[n])
    && (forall n :: n in visited && n in dist0 ==> dist[n] == dist0[n])
  }

  /** Entries queued since `pq0` are for unvisited nodes and improve on the distances in `dist0`. */
  ghost predicate Improving(dist0: map<int, int>, pq0: seq<Entry>, visited: set<int>, pq: seq<Entry>)
  {
    && |pq0| <= |pq| && pq[..|pq0|] == pq0
    && forall k :: |pq0| <= k < |pq| ==>
      pq[k].node !in visited && (pq[k].node in dist0 ==> pq[k].dist < dist0[pq[k].node])
  }

  lemma UpdatedFrame(dist: map<int, int>, pq: seq<Entry>, visited: set<int>, n: int, dist1: map<int, int>, pq1: seq<Entry>)
    requires Updated(dist, pq, visited, n, dist1, pq1)
    ensures dist.Keys <= dist1.Keys <= dist.Keys + {n}
    ensures Monotone(dist, dist1, visited)
    ensures |pq| <= |pq1| && pq1[..|pq|] == pq
  {
  }

  lemma StaleStep(dist: map<int, int>, pq: seq<Entry>, visited: set<int>, n: int, dist1: map<int, int>, pq1: seq<Entry>)
    requires Updated(dist, pq, visited, n, dist1, pq1) && Stale(dist, pq)
    ensures Stale(dist1, pq1)
  {
  }

  lemma QueuedStep(dist: map<int, int>, pq: seq<Entry>, visited: set<int>, n: int, dist1: map<int, int>, pq1: seq<Entry>)
    requires Updated(dist, pq, visited, n, dist1, pq1) && Queued(dist, visited, pq)
    ensures Queued(dist1, visited, pq1)
  {
    if pq1 != pq {
      forall m | m in dist1 && m !in visited
        ensures Entry(m, dist1[m]) in pq1
      {
        if m != n {
          assert Entry(m, dist[m]) in pq;
        } else {
          assert pq1[|pq|] == Entry(n, dist1[n]);
        }
      }
    }
  }

  lemma BelowStep(dist: map<int, int>, pq: seq<Entry>, visited: set<int>, n: int, dist1: map<int, int>, pq1: seq<Entry>, d: int)
    requires Updated(dist, pq, visited, n, dist1, pq1) && Below(dist, visited, pq)
    requires forall m :: m in visited && m in dist ==> dist[m] <= d
    requires pq1 != pq ==> d < dist1[n]
    ensures Below(dist1, visited, pq1)
  {
  }

  lemma FinalStep(g: Graph, start: int, dist: map<int, int>, pq: seq<Entry>, visited: set<int>, n: int, dist1: map<int, int>, pq1: seq<Entry>)
    requires Updated(dist, pq, visited, n, dist1, pq1) && Final(g, start, dist, visited)
    ensures Final(g, start, dist1, visited)
  {
    UpdatedFrame(dist, pq, visited, n, dist1, pq1);
  }

  lemma InNodesStep(g: Graph, start: int, dist: map<int, int>, pq: seq<Entry>, visited: set<int>, n: int, dist1: map<int, int>, pq1: seq<Entry>)
    requires Updated(dist, pq, visited, n, dist1, pq1) && InNodes(g, start, dist, pq) && n in Nodes(g, start)
    ensures InNodes(g, start, dist1, pq1)
  {
  }

  lemma AllRelaxedStep(g: Graph, dist: map<int, int>, pq: seq<Entry>, visited: set<int>, n: int, dist1: map<int, int>, pq1: seq<Entry>, except: set<int>)
    requires Updated(dist, pq, visited, n, dist1, pq1) && AllRelaxed(g, dist, visited, except)
    ensures AllRelaxed(g, dist1, visited, except)
  {
    UpdatedFrame(dist, pq, visited, n, dist1, pq1);
  }

  lemma MonotoneStep(dist0: map<int, int>, dist: map<int, int>, pq: seq<Entry>, visited: set<int>, n: int, dist1: map<int, int>, pq1: seq<Entry>)
    requires Updated(dist, pq, visited, n, dist1, pq1) && Monotone(dist0, dist, visited)
    ensures Monotone(dist0, dist1, visited)
  {
    UpdatedFrame(dist, pq, visited, n, dist1, pq1);
  }

  lemma ImprovingStep(dist0: map<int, int>, pq0: seq<Entry>, dist: map<int, int>, pq: seq<Entry>, visited: set<int>, n: int, dist1: map<int, int>, pq1: seq<Entry>)
    requires Updated(dist, pq, visited, n, dist1, pq1) && Improving(dist0, pq0, visited, pq) && Monotone(dist0, dist, visited)
    ensures Improving(dist0, pq0, visited, pq1)
  {
    if pq1 != pq {
      assert pq1[|pq|] == Entry(n, dist1[n]);
      assert pq1[..|pq0|] == pq[..|pq0|];
    }
  }

  /** One relaxation keeps the list invariants. */
  lemma CoreStep(g: Graph, start: int, dist: map<int, int>, pq: seq<Entry>, wit: map<int, seq<Arc>>, visited: set<int>, n: int, dist1: map<int, int>, pq1: seq<Entry>, wit1: map<int, seq<Arc>>, d: int)
    requires Core(g, start, dist, visited, pq, wit) && Updated(dist, pq, visited, n, dist1, pq1)
    requires forall m :: m in visited ==> dist[m] <= d
    requires pq1 != pq ==> d < dist1[n]
    requires Distances(start, dist1) && Witnessed(g, start, dist1, wit1) && n in Nodes(g, start)
    ensures Core(g, start, dist1, visited, pq1, wit1)
  {
    UpdatedFrame(dist, pq, visited, n, dist1, pq1);
    StaleStep(dist, pq, visited, n, dist1, pq1);
    QueuedStep(dist, pq, visited, n, dist1, pq1);
    BelowStep(dist, pq, visited, n, dist1, pq1, d);
    FinalStep(g, start, dist, pq, visited, n, dist1, pq1);
    InNodesStep(g, start, dist, pq, visited, n, dist1, pq1);
  }

  /**
   * One step of the inner loop, for the edge `e` listed for the node `x` just visited at
   * distance `d`: an unvisited neighbour whose distance strictly improves is recorded and queued.
   * `distances.get(n) || Infinity` also treats a recorded 0 as unknown; only the start is at 0
   * and it is visited first, so that case never changes the outcome.
   */
  method RelaxEdge(g: Graph, start: int, x: int, d: int, e: Edge, dist0: map<int, int>, pq0: seq<Entry>, visited: set<int>, ghost wit0: map<int, seq<Arc>>)
    returns (dist: map<int, int>, pq: seq<Entry>, ghost wit: map<int, seq<Arc>>)
    requires PositiveWeights(g) && Distances(start, dist0)
    requires e in Neighbors(g, x)
    requires start in visited && x in visited && visited <= dist0.Keys
    requires x in dist0 && dist0[x] == d
    requires Witnessed(g, start, dist0, wit0)
    ensures e.neighbor in visited || (e.neighbor in dist && dist[e.neighbor] <= d + e.weight)
    ensures Updated(dist0, pq0, visited, e.neighbor, dist, pq)
    ensures pq != pq0 ==> dist[e.neighbor] == d + e.weight
    ensures Distances(start, dist) && Witnessed(g, start, dist, wit)
  {
    dist, pq, wit := dist0, pq0, wit0;
    if e.neighbor !in visited {
      var distance := d + e.weight;
      if e.neighbor !in dist || dist[e.neighbor] == 0 || distance < dist[e.neighbor] {
        assert e in g[x];
        WalkExtend(g, start, wit[x], Arc(x, e.neighbor, e.weight));
        dist := dist[e.neighbor := distance];
        pq := pq + [Entry(e.neighbor, distance)];
        wit := wit[e.neighbor := wit[x] + [Arc(x, e.neighbor, e.weight)]];
      }
    }
  }

  /** Once every edge of `x` is relaxed, all visited nodes are. */
  lemma CloseRelaxed(g: Graph, dist: map<int, int>, visited: set<int>, x: int, d: int)
    requires x in visited && x in dist && dist[x] == d
    requires AllRelaxed(g, dist, visited, {x})
    requires forall i :: 0 <= i < |Neighbors(g, x)| ==>
      Neighbors(g, x)[i].neighbor in visited
      || (Neighbors(g, x)[i].neighbor in dist && dist[Neighbors(g, x)[i].neighbor] <= d + Neighbors(g, x)[i].weight)
    ensures AllRelaxed(g, dist, visited, {})
  {
    assert Relaxed(g, dist, visited, x);
  }

  /**
   * The inner loop over the edges listed for the node `x` just visited, at distance `d`.
   * Distances of visited nodes stay fixed, a recorded distance only ever decreases, and an
   * entry is queued only for an unvisited node whose distance strictly improves.
   */
  method Relax(g: Graph, start: int, x: int, d: int, dist0: map<int, int>, pq0: seq<Entry>, visited: set<int>, ghost wit0: map<int, seq<Arc>>)
    returns (dist: map<int, int>, pq: seq<Entry>, ghost wit: map<int, seq<Arc>>)
    requires Core(g, start, dist0, visited, pq0, wit0)
    requires x in visited && start in visited && x in dist0 && dist0[x] == d
    requires forall n :: n in visited ==> dist0[n] <= d
    requires AllRelaxed(g, dist0, visited, {x})
    ensures Core(g, start, dist, visited, pq, wit) && AllRelaxed(g, dist, visited, {})
    ensures Monotone(dist0, dist, visited)
    ensures Improving(dist0, pq0, visited, pq)
  {
    dist, pq, wit := dist0, pq0, wit0;
    var edges := Neighbors(g, x);
    var j := 0;
    while j < |edges|
      invariant 0 <= j <= |edges|
      invariant Core(g, start, dist, visited, pq, wit) && AllRelaxed(g, dist, visited, {x})
      invariant Monotone(dist0, dist, visited) && Improving(dist0, pq0, visited, pq)
      invariant forall i :: 0 <= i < j ==>
        edges[i].neighbor in visited || (edges[i].neighbor in dist && dist[edges[i].neighbor] <= d + edges[i].weight)
    {
      var n := edges[j].neighbor;
      var dist1, pq1, wit1 := RelaxEdge(g, start, x, d, edges[j], dist, pq, visited, wit);
      NeighborInNodes(g, start, x, edges[j]);
      assert edges[j] in g[x];
      UpdatedFrame(dist, pq, visited, n, dist1, pq1);
      RelaxedPrefix(edges, j, visited, d, dist, dist1);
      CoreStep(g, start, dist, pq, wit, visited, n, dist1, pq1, wit1, d);
      AllRelaxedStep(g, dist, pq, visited, n, dist1, pq1, {x});
      MonotoneStep(dist0, dist, pq, visited, n, dist1, pq1);
      ImprovingStep(dist0, pq0, dist, pq, visited, n, dist1, pq1);
      dist, pq, wit := dist1, pq1, wit1;
      j := j + 1;
    }
    CloseRelaxed(g, dist, visited, x, d);
  }

  /**
   * Taking the least entry off the list keeps the list invariants, with the entry's node
   * counted as visited; a node not visited before comes off at its recorded distance.
   */
  lemma PopKeeps(dist: map<int, int>, visited: set<int>, pq: seq<Entry>, k: nat)
    requires k < |pq| && Stale(dist, pq) && Queued(dist, visited, pq) && Below(dist, visited, pq)
    requires forall j :: 0 <= j < |pq| ==> pq[k].dist <= pq[j].dist
    ensures pq[k].node in dist
    ensures pq[k].node !in visited ==> dist[pq[k].node] == pq[k].dist
    ensures Stale(dist, pq[..k] + pq[k + 1..])
    ensures Queued(dist, visited + {pq[k].node}, pq[..k] + pq[k + 1..])
    ensures Below(dist, visited + {pq[k].node}, pq[..k] + pq[k + 1..])
    ensures forall e :: e in pq[..k] + pq[k + 1..] ==> e in pq
  {
    var x := pq[k].node;
    var rest := pq[..k] + pq[k + 1..];
    assert forall j :: 0 <= j < |rest| ==> rest[j] == if j < k then pq[j] else pq[j + 1];
    forall n | n in dist && n !in visited + {x}
      ensures Entry(n, dist[n]) in rest
    {
      var i :| 0 <= i < |pq| && pq[i] == Entry(n, dist[n]);
      assert i != k;
      if i < k {
        assert rest[i] == pq[i];
      } else {
        assert rest[i - 1] == pq[i];
      }
    }
    if x !in visited {
      var i :| 0 <= i < |pq| && pq[i] == Entry(x, dist[x]);
      assert pq[k].dist <= pq[i].dist;
    }
  }

  /** The node taken off the list, if not yet visited, is at its final distance. */
  lemma Settle(g: Graph, start: int, dist: map<int, int>, visited: set<int>, pq: seq<Entry>, k: nat)
    requires PositiveWeights(g) && Distances(start, dist) && visited <= dist.Keys
    requires k < |pq| && Stale(dist, pq) && Queued(dist, visited, pq)
    requires forall j :: 0 <= j < |pq| ==> pq[k].dist <= pq[j].dist
    requires Final(g, start, dist, visited) && AllRelaxed(g, dist, visited, {})
    requires pq[k].node !in visited
    ensures Final(g, start, dist, visited + {pq[k].node})
  {
    var x := pq[k].node;
    var i :| 0 <= i < |pq| && pq[i] == Entry(x, dist[x]);
    forall n, w | n in visited + {x} && n in dist && WalkTo(g, start, n, w)
      ensures dist[n] <= Cost(w)
    {
      if n == x {
        Frontier(g, start, dist, visited, pq, w);
      }
    }
  }

  /** Once the list is empty, every node reachable from the start has been visited. */
  lemma Complete(g: Graph, start: int, dist: map<int, int>, visited: set<int>, wit: map<int, seq<Arc>>)
    requires Core(g, start, dist, visited, [], wit) && AllRelaxed(g, dist, visited, {})
    ensures dist.Keys == visited
    ensures ShortestDistances(g, start, dist)
  {
    forall v | v in dist
      ensures IsShortest(g, start, v, dist[v])
    {
      assert WalkTo(g, start, v, wit[v]);
    }
    forall v | Reachable(g, start, v)
      ensures v in dist
    {
      var w :| WalkTo(g, start, v, w);
      if v !in visited {
        Frontier(g, start, dist, visited, [], w);
        assert false;
      }
    }
  }

  /** A node joining the visited set leaves the edges already relaxed relaxed. */
  lemma RelaxedGrow(g: Graph, dist: map<int, int>, visited: set<int>, x: int)
    requires AllRelaxed(g, dist, visited, {})
    ensures AllRelaxed(g, dist, visited + {x}, {x})
  {
    forall u | u in visited + {x} && u !in {x}
      ensures u in dist && Relaxed(g, dist, visited + {x}, u)
    {
      assert Relaxed(g, dist, visited, u);
    }
  }

  /** `order` lists nodes in non-decreasing order of recorded distance. */
  ghost predicate SortedBy(order: seq<int>, dist: map<int, int>)
  {
    forall i, j :: 0 <= i < j < |order| && order[i] in dist && order[j] in dist ==> dist[order[i]] <= dist[order[j]]
  }

  lemma SortedAppend(order: seq<int>, dist0: map<int, int>, dist1: map<int, int>, x: int)
    requires SortedBy(order, dist0) && x in dist0
    requires forall i :: 0 <= i < |order| ==> order[i] in dist0 && dist0[order[i]] <= dist0[x]
    requires forall n :: n in dist0 && (n in order || n == x) ==> n in dist1 && dist1[n] == dist0[n]
    ensures SortedBy(order + [x], dist1)
  {
    var o := order + [x];
    forall i, j | 0 <= i < j < |o| && o[i] in dist1 && o[j] in dist1
      ensures dist1[o[i]] <= dist1[o[j]]
    {
      assert o[i] == order[i];
      assert o[i] in order;
      if j < |order| {
        assert o[j] == order[j];
        assert o[j] in order;
      }
    }
  }

  /** The visiting order: each visited node once, the start first, by non-decreasing distance. */
  ghost predicate Ordered(start: int, dist: map<int, int>, visited: set<int>, order: seq<int>)
  {
    && (forall n :: n in visited <==> n in order)
    && (forall i, j :: 0 <= i < j < |order| ==> order[i] != order[j])
    && (|order| > 0 ==> order[0] == start)
    && SortedBy(order, dist)
  }

  /** What holds between rounds of the outer loop. */
  ghost predicate Invariant(g: Graph, start: int, dist: map<int, int>, visited: set<int>, order: seq<int>, pq: seq<Entry>, wit: map<int, seq<Arc>>)
  {
    && Core(g, start, dist, visited, pq, wit) && AllRelaxed(g, dist, visited, {})
    && Ordered(start, dist, visited, order) && visited <= Nodes(g, start)
    && (|order| == 0 ==> pq == [Entry(start, 0)] && dist == map[start := 0])
  }

  lemma OrderedAppend(start: int, dist0: map<int, int>, dist: map<int, int>, visited: set<int>, order: seq<int>, x: int)
    requires Ordered(start, dist0, visited, order) && visited <= dist0.Keys
    requires x !in visited && x in dist0 && (|order| == 0 ==> x == start)
    requires forall n :: n in visited ==> dist0[n] <= dist0[x]
    requires Monotone(dist0, dist, visited + {x})
    ensures Ordered(start, dist, visited + {x}, order + [x])
  {
    SortedAppend(order, dist0, dist, x);
    var o := order + [x];
    forall i, j | 0 <= i < j < |o|
      ensures o[i] != o[j]
    {
      assert o[i] == order[i];
      if j < |order| {
        assert o[j] == order[j];
      } else {
        assert order[i] in visited;
      }
    }
  }

  /**
   * Visiting `x`, just taken off the list at distance `d`: it joins the visited set and the
   * visiting order, and its edges are relaxed.
   */
  method Visit(g: Graph, start: int, dist0: map<int, int>, visited0: set<int>, order0: seq<int>, pq0: seq<Entry>, ghost wit0: map<int, seq<Arc>>, x: int, d: int)
    returns (dist: map<int, int>, visited: set<int>, order: seq<int>, pq: seq<Entry>, ghost wit: map<int, seq<Arc>>)
    requires Core(g, start, dist0, visited0 + {x}, pq0, wit0) && AllRelaxed(g, dist0, visited0 + {x}, {x})
    requires Ordered(start, dist0, visited0, order0) && visited0 + {x} <= Nodes(g, start)
    requires x !in visited0 && dist0[x] == d && (|order0| == 0 ==> x == start)
    requires forall n :: n in visited0 ==> dist0[n] <= d
    ensures Invariant(g, start, dist, visited, order, pq, wit)
    ensures visited == visited0 + {x}
  {
    visited := visited0 + {x};
    order := order0 + [x];
    assert start in visited;
    dist, pq, wit := Relax(g, start, x, d, dist0, pq0, visited, wit0);
    OrderedAppend(start, dist0, dist, visited0, order0, x);
  }

  /** Taking an entry off keeps every remaining entry's node among the graph's nodes. */
  lemma InNodesRest(g: Graph, start: int, dist: map<int, int>, pq: seq<Entry>, rest: seq<Entry>)
    requires InNodes(g, start, dist, pq)
    requires forall e :: e in rest ==> e in pq
    ensures InNodes(g, start, dist, rest)
  {
    forall j | 0 <= j < |rest|
      ensures rest[j].node in Nodes(g, start)
    {
      assert rest[j] in rest;
      var i :| 0 <= i < |pq| && pq[i] == rest[j];
    }
  }

  /**
   * One round of the outer loop: the least entry comes off the list; a node already visited
   * is skipped, otherwise it is visited.
   */
  method Round(g: Graph, start: int, dist0: map<int, int>, visited0: set<int>, order0: seq<int>, pq0: seq<Entry>, ghost wit0: map<int, seq<Arc>>)
    returns (dist: map<int, int>, visited: set<int>, order: seq<int>, pq: seq<Entry>, ghost wit: map<int, seq<Arc>>)
    requires |pq0| > 0 && Invariant(g, start, dist0, visited0, order0, pq0, wit0)
    ensures Invariant(g, start, dist, visited, order, pq, wit)
    ensures visited == visited0 ==> |pq| < |pq0|
    ensures visited != visited0 ==> exists x :: x !in visited0 && x in Nodes(g, start) && visited == visited0 + {x}
  {
    var k := ExtractMin(pq0);
    var x, d := pq0[k].node, pq0[k].dist;
    PopKeeps(dist0, visited0, pq0, k);
    var rest := pq0[..k] + pq0[k + 1..];
    InNodesRest(g, start, dist0, pq0, rest);
    if x in visited0 {
      assert visited0 + {x} == visited0;
      dist, visited, order, pq, wit := dist0, visited0, order0, rest, wit0;
      return;
    }
    Settle(g, start, dist0, visited0, pq0, k);
    RelaxedGrow(g, dist0, visited0, x);
    assert |order0| == 0 ==> x == start;
    dist, visited, order, pq, wit := Visit(g, start, dist0, visited0, order0, rest, wit0, x, d);
  }

  lemma Shrink(nodes: set<int>, visited: set<int>, x: int)
    requires x in nodes && x !in visited
    ensures |nodes - (visited + {x})| < |nodes - visited|
  {
    assert (nodes - (visited + {x})) + {x} == nodes - visited;
  }

  /** Before the first round: only the start is recorded, at 0, and it is the only entry. */
  lemma Initially(g: Graph, start: int)
    requires PositiveWeights(g)
    ensures Invariant(g, start, map[start := 0], {}, [], [Entry(start, 0)], map[start := []])
  {
    assert WalkTo(g, start, start, []);
  }

  /** After the last round: what `dijkstraManual` returns. */
  lemma Finally(g: Graph, start: int, dist: map<int, int>, visited: set<int>, order: seq<int>, wit: map<int, seq<Arc>>)
    requires Invariant(g, start, dist, visited, order, [], wit)
    ensures start in dist && dist[start] == 0
    ensures ShortestDistances(g, start, dist)
    ensures forall n :: n in dist <==> n in order
    ensures forall i, j :: 0 <= i < j < |order| ==> order[i] != order[j]
    ensures |order| > 0 && order[0] == start
    ensures forall i, j :: 0 <= i < j < |order| ==> dist[order[i]] <= dist[order[j]]
  {
    Complete(g, start, dist, visited, wit);
    forall i, j | 0 <= i < j < |order|
      ensures dist[order[i]] <= dist[order[j]]
    {
      assert order[i] in visited && order[j] in visited;
    }
  }

  /**
   * `dijkstraManual(graph, start)`: the distances it returns are exactly the shortest-walk
   * distances from the start over the nodes reachable from it, and nodes are visited once each,
   * the start first, in order of distance.
   */
  method DijkstraManual(g: Graph, start: int) returns (dist: map<int, int>, order: seq<int>)
    requires PositiveWeights(g)
    ensures start in dist && dist[start] == 0
    ensures ShortestDistances(g, start, dist)
    ensures forall n :: n in dist <==> n in order
    ensures forall i, j :: 0 <= i < j < |order| ==> order[i] != order[j]
    ensures |order| > 0 && order[0] == start
    ensures forall i, j :: 0 <= i < j < |order| ==> dist[order[i]] <= dist[order[j]]
  {
    dist := map[start := 0];
    var visited: set<int> := {};
    var pq := [Entry(start, 0)];
    order := [];
    ghost var wit: map<int, seq<Arc>> := map[start := []];
    ghost var nodes := Nodes(g, start);
    Initially(g, start);
    while |pq| > 0
      invariant Invariant(g, start, dist, visited, order, pq, wit)
      invariant visited <= nodes
      decreases |nodes - visited|, |pq|
    {
      ghost var before := visited;
      dist, visited, order, pq, wit := Round(g, start, dist, visited, order, pq, wit);
      if visited != before {
        var x :| x !in before && x in nodes && visited == before + {x};
        Shrink(nodes, before, x);
      }
    }
    Finally(g, start, dist, visited, order, wit);
  }
}

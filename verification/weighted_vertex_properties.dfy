/**
 * Properties of the weighted vertex model: the invariant every mutator keeps, the
 * mirror discipline of undirected edges, round trips, and what `setEdges` leaves.
 */
module WeightedVertexProperties {
  import opened WeightedGraphVertex
  import opened Sequences

  /** Deleting the first occurrence from a duplicate-free list removes exactly that value. */
  lemma DeleteFirstDistinct<X>(xs: seq<X>, x: X)
    requires Distinct(xs)
    ensures Distinct(DeleteFirst(xs, x))
    ensures forall y :: y in DeleteFirst(xs, x) <==> y in xs && y != x
  {
    if x in xs {
      var i := IndexOf(xs, x);
      var r := xs[..i] + xs[i + 1..];
      assert DeleteFirst(xs, x) == r;
      assert forall k :: 0 <= k < |r| ==> r[k] == if k < i then xs[k] else xs[k + 1];
      forall y
        ensures y in r <==> y in xs && y != x
      {
        if y in xs && y != x {
          var k :| 0 <= k < |xs| && xs[k] == y;
          assert k != i;
          if k < i { assert r[k] == y; } else { assert r[k - 1] == y; }
        }
      }
    }
  }

  /** `AppendNew` keeps the base as a prefix, adds exactly the new values, and adds no duplicate. */
  lemma {:induction false} AppendNewFacts<X>(base: seq<X>, xs: seq<X>)
    ensures forall y :: y in AppendNew(base, xs) <==> y in base || y in xs
    ensures |base| <= |AppendNew(base, xs)| && AppendNew(base, xs)[..|base|] == base
    ensures Distinct(base) ==> Distinct(AppendNew(base, xs))
    decreases xs
  {
    if |xs| > 0 {
      var base' := if xs[0] in base then base else base + [xs[0]];
      AppendNewFacts(base', xs[1..]);
      assert xs == [xs[0]] + xs[1..];
      assert base'[..|base|] == base;
    }
  }

  /** Adding `xs ++ ys` one by one is adding `xs`, then `ys`. */
  lemma {:induction false} AppendNewConcat<X>(base: seq<X>, xs: seq<X>, ys: seq<X>)
    ensures AppendNew(base, xs + ys) == AppendNew(AppendNew(base, xs), ys)
    decreases xs
  {
    if |xs| > 0 {
      var base' := if xs[0] in base then base else base + [xs[0]];
      assert (xs + ys)[1..] == xs[1..] + ys;
      AppendNewConcat(base', xs[1..], ys);
    } else {
      assert xs + ys == ys;
    }
  }

  /** `addEdge` keeps every weight list non-empty, duplicate-free and inside the arena. */
  lemma AddKeepsWellFormed<T>(g: Arena<T>, u: Handle, v: Handle, w: Weight, undirected: bool)
    requires WellFormed(g) && u in g && v in g
    ensures WellFormed(AddEdge(g, u, v, w, undirected).arena)
  {
    var r := AddEdge(g, u, v, w, undirected);
    if r.ok {
      forall a, b | a in r.arena && b in r.arena[a].edges
        ensures r.arena[a].edges[b] != [] && Distinct(r.arena[a].edges[b])
      {
        assert r.arena[a].edges[b] == Weights(r.arena, a, b);
        if a == u && b == v {
          assert Distinct(Weights(g, u, v) + [w]);
        } else if undirected && a == v && b == u {
          AppendNewFacts(Weights(g, v, u), [w]);
        } else {
          assert HasEdge(g, a, b);
        }
      }
    }
  }

  /** The directed half of `removeEdge` keeps the invariant, deleting an entry it empties. */
  lemma DropKeepsWellFormed<T>(g: Arena<T>, u: Handle, v: Handle, w: Weight)
    requires WellFormed(g) && u in g && w in Weights(g, u, v)
    ensures WellFormed(DropWeight(g, u, v, w))
  {
    var r := DropWeight(g, u, v, w);
    forall a, b | a in r && b in r[a].edges
      ensures r[a].edges[b] != [] && Distinct(r[a].edges[b])
    {
      assert r[a].edges[b] == Weights(r, a, b);
      assert HasEdge(g, a, b);
      if a == u && b == v {
        assert v in g[u].edges;
        assert Distinct(g[u].edges[v]);
        DeleteFirstDistinct(Weights(g, u, v), w);
      }
    }
  }

  /** `removeEdge` keeps the invariant. */
  lemma RemoveKeepsWellFormed<T>(g: Arena<T>, u: Handle, v: Handle, w: Weight, undirected: bool)
    requires WellFormed(g) && u in g && v in g
    ensures WellFormed(RemoveEdge(g, u, v, w, undirected).arena)
  {
    if w in Weights(g, u, v) {
      var g1 := DropWeight(g, u, v, w);
      DropKeepsWellFormed(g, u, v, w);
      if undirected && w in Weights(g1, v, u) {
        DropKeepsWellFormed(g1, v, u, w);
      }
    }
  }

  /** `setEdge` keeps the invariant. */
  lemma SetEdgeKeepsWellFormed<T>(g: Arena<T>, u: Handle, oldVertex: Handle, newVertex: Handle, w: Weight, undirected: bool)
    requires WellFormed(g) && u in g && oldVertex in g && newVertex in g
    ensures WellFormed(SetEdge(g, u, oldVertex, newVertex, w, undirected).arena)
  {
    if HasEdge(g, u, oldVertex) {
      var g1 := g[u := g[u].(edges := g[u].edges - {oldVertex})];
      assert WellFormed(g1) by {
        forall a, b | a in g1 && b in g1[a].edges
          ensures g1[a].edges[b] != [] && Distinct(g1[a].edges[b])
        {
          assert b in g[a].edges;
        }
      }
      var g2 := AddEdge(g1, u, newVertex, w, undirected).arena;
      AddKeepsWellFormed(g1, u, newVertex, w, undirected);
      if undirected {
        var g3 := RemoveEdge(g2, oldVertex, u, w, false).arena;
        RemoveKeepsWellFormed(g2, oldVertex, u, w, false);
        AddKeepsWellFormed(g3, newVertex, u, w, false);
      }
    }
  }

  lemma {:induction false} AddWeightsKeepsWellFormed<T>(g: Arena<T>, u: Handle, v: Handle, ws: seq<Weight>, undirected: bool)
    requires WellFormed(g) && u in g && v in g
    ensures WellFormed(AddWeights(g, u, v, ws, undirected))
    decreases ws
  {
    if |ws| > 0 {
      AddKeepsWellFormed(g, u, v, ws[0], undirected);
      AddWeightsKeepsWellFormed(AddEdge(g, u, v, ws[0], undirected).arena, u, v, ws[1..], undirected);
    }
  }

  lemma {:induction false} AddAllKeepsWellFormed<T>(g: Arena<T>, u: Handle, es: seq<Adjacent>, undirected: bool)
    requires WellFormed(g) && u in g && InArena(g, es)
    ensures WellFormed(AddAll(g, u, es, undirected))
    decreases es
  {
    if |es| > 0 {
      var g1 := AddWeights(g, u, es[0].vertex, es[0].weights, undirected);
      AddWeightsKeepsWellFormed(g, u, es[0].vertex, es[0].weights, undirected);
      AddAllKeepsWellFormed(g1, u, es[1..], undirected);
    }
  }

  /** `setEdges` keeps the invariant: duplicate input weights are skipped, never stored twice. */
  lemma SetEdgesKeepsWellFormed<T>(g: Arena<T>, u: Handle, es: seq<Adjacent>, undirected: bool)
    requires WellFormed(g) && u in g && InArena(g, es)
    ensures WellFormed(SetEdges(g, u, es, undirected))
  {
    var g0 := g[u := g[u].(edges := map[])];
    assert WellFormed(g0) by {
      forall a, b | a in g0 && b in g0[a].edges
        ensures g0[a].edges[b] != [] && Distinct(g0[a].edges[b])
      {
        assert b in g[a].edges;
      }
    }
    AddAllKeepsWellFormed(g0, u, es, undirected);
  }

  lemma AddDirectedUnfold<T>(g: Arena<T>, u: Handle, v: Handle, w: Weight)
    requires u in g && v in g && w !in Weights(g, u, v)
    ensures AddEdge(g, u, v, w, false) == Step(true, g[u := g[u].(edges := g[u].edges[v := Weights(g, u, v) + [w]])])
  {
  }

  lemma DropLastWeight<T>(g: Arena<T>, u: Handle, v: Handle, ws: seq<Weight>, w: Weight)
    requires u in g && v in g[u].edges && g[u].edges[v] == ws + [w] && w !in ws
    ensures DropWeight(g, u, v, w) == g[u := g[u].(edges := if ws == [] then g[u].edges - {v} else g[u].edges[v := ws])]
  {
    assert IndexOf(ws + [w], w) == |ws|;
    assert (ws + [w])[..|ws|] + (ws + [w])[|ws| + 1..] == ws;
  }

  /** A directed `addEdge` that succeeded is undone exactly by the matching `removeEdge`. */
  lemma AddRemoveRoundTrip<T>(g: Arena<T>, u: Handle, v: Handle, w: Weight)
    requires WellFormed(g) && u in g && v in g
    requires AddEdge(g, u, v, w, false).ok
    ensures RemoveEdge(AddEdge(g, u, v, w, false).arena, u, v, w, false) == Step(true, g)
  {
    var ws := Weights(g, u, v);
    var e := g[u].edges;
    var g1 := g[u := g[u].(edges := e[v := ws + [w]])];
    AddDirectedUnfold(g, u, v, w);
    DropLastWeight(g1, u, v, ws, w);
    assert RemoveEdge(g1, u, v, w, false) == Step(true, DropWeight(g1, u, v, w));
    var gone: set<Handle> := {v};
    var e1: map<Handle, seq<Weight>> := e[v := ws + [w]];
    var e' := if ws == [] then e1 - gone else e1[v := ws];
    assert e' == e by {
      if v in e {
        assert e[v] == ws != [];
      }
    }
  }

  /**
   * Parallel edges: after adding weights 3 and 7 toward `v`, removing 3 leaves exactly `[7]`,
   * and removing 7 as well deletes the entry.
   */
  lemma ParallelEdges<T>(g: Arena<T>, u: Handle, v: Handle)
    requires u in g && v in g && !HasEdge(g, u, v)
    ensures var g1 := AddEdge(g, u, v, 3, false).arena;
      var g2 := AddEdge(g1, u, v, 7, false).arena;
      var g3 := RemoveEdge(g2, u, v, 3, false).arena;
      && Weights(g2, u, v) == [3, 7]
      && Weights(g3, u, v) == [7] && HasEdge(g3, u, v)
      && !HasEdge(RemoveEdge(g3, u, v, 7, false).arena, u, v)
  {
    var g1 := AddEdge(g, u, v, 3, false).arena;
    var g2 := AddEdge(g1, u, v, 7, false).arena;
    assert Weights(g2, u, v) == [3, 7];
    assert IndexOf([3, 7], 3) == 0;
    var g3 := RemoveEdge(g2, u, v, 3, false).arena;
    assert Weights(g3, u, v) == [7];
    assert IndexOf([7], 7) == 0;
  }

  /** A second add of the same weight fails and changes nothing. */
  lemma AddTwiceIsIdempotent<T>(g: Arena<T>, u: Handle, v: Handle, w: Weight, undirected: bool)
    requires u in g && v in g
    ensures var g1 := AddEdge(g, u, v, w, undirected).arena;
      AddEdge(g1, u, v, w, undirected) == Step(false, g1)
  {
  }

  /** An undirected `addEdge` keeps every weighted edge matched by its reverse. */
  lemma UndirectedAddKeepsSymmetric<T>(g: Arena<T>, u: Handle, v: Handle, w: Weight)
    requires Symmetric(g) && u in g && v in g
    ensures Symmetric(AddEdge(g, u, v, w, true).arena)
  {
    var r := AddEdge(g, u, v, w, true);
    if r.ok {
      AppendNewFacts(Weights(g, v, u), [w]);
      forall a, b, x | a in r.arena && b in r.arena && x in Weights(r.arena, a, b)
        ensures x in Weights(r.arena, b, a)
      {
        if a == u && b == v {
        } else if a == v && b == u {
        } else {
          assert x in Weights(g, a, b);
        }
      }
    }
  }

  /** An undirected `removeEdge` keeps every weighted edge matched by its reverse. */
  lemma UndirectedRemoveKeepsSymmetric<T>(g: Arena<T>, u: Handle, v: Handle, w: Weight)
    requires WellFormed(g) && Symmetric(g) && u in g && v in g
    ensures Symmetric(RemoveEdge(g, u, v, w, true).arena)
  {
    var r := RemoveEdge(g, u, v, w, true);
    if r.ok {
      assert Distinct(Weights(g, u, v)) && Distinct(Weights(g, v, u));
      DeleteFirstDistinct(Weights(g, u, v), w);
      DeleteFirstDistinct(Weights(g, v, u), w);
      DeleteFirstDistinct(DeleteFirst(Weights(g, u, v), w), w);
      forall a, b, x | a in r.arena && b in r.arena && x in Weights(r.arena, a, b)
        ensures x in Weights(r.arena, b, a)
      {
        if (a == u && b == v) || (a == v && b == u) {
        } else {
          assert x in Weights(g, a, b);
        }
      }
    }
  }

  /** All weights `es` lists toward `b`, concatenated in input order. */
  function Collect(es: seq<Adjacent>, b: Handle): seq<Weight>
    decreases es
  {
    if |es| == 0 then []
    else (if es[0].vertex == b then es[0].weights else []) + Collect(es[1..], b)
  }

  /** When undirected, every weight `u` records toward a vertex is mirrored back toward `u`. */
  ghost predicate Mirrored<T>(g: Arena<T>, u: Handle, undirected: bool)
  {
    u in g && (undirected ==> forall a, x :: a in g && x in Weights(g, u, a) ==> x in Weights(g, a, u))
  }

  /** One add of the `setEdges` loop, seen entry by entry. */
  lemma AddStep<T>(g: Arena<T>, u: Handle, v: Handle, x: Weight, undirected: bool, a: Handle, b: Handle)
    requires u in g && v in g && a in g && Mirrored(g, u, undirected)
    ensures Weights(AddEdge(g, u, v, x, undirected).arena, a, b)
      == if a == u then (if b == v then AppendNew(Weights(g, u, v), [x]) else Weights(g, u, b))
         else if undirected && a == v && b == u then AppendNew(Weights(g, v, u), [x])
         else Weights(g, a, b)
  {
    assert AppendNew(Weights(g, u, v), [x]) == AppendNew(if x in Weights(g, u, v) then Weights(g, u, v) else Weights(g, u, v) + [x], []);
    assert AppendNew(Weights(g, v, u), [x]) == AppendNew(if x in Weights(g, v, u) then Weights(g, v, u) else Weights(g, v, u) + [x], []);
    if x in Weights(g, u, v) && undirected && a == v && b == u && a != u {
      assert x in Weights(g, a, u);
    }
  }

  lemma AddStepMirrored<T>(g: Arena<T>, u: Handle, v: Handle, x: Weight, undirected: bool)
    requires u in g && v in g && Mirrored(g, u, undirected)
    ensures Mirrored(AddEdge(g, u, v, x, undirected).arena, u, undirected)
  {
    var r := AddEdge(g, u, v, x, undirected).arena;
    if undirected {
      forall a, y | a in r && y in Weights(r, u, a)
        ensures y in Weights(r, a, u)
      {
        AddStep(g, u, v, x, undirected, u, a);
        AddStep(g, u, v, x, undirected, a, u);
        AppendNewFacts(Weights(g, u, v), [x]);
        AppendNewFacts(Weights(g, v, u), [x]);
      }
    }
  }

  /** The inner loop of `setEdges`: every weight of `ws` is added toward `v` unless already there. */
  lemma {:induction false} AddWeightsAt<T>(g: Arena<T>, u: Handle, v: Handle, ws: seq<Weight>, undirected: bool, a: Handle, b: Handle)
    requires u in g && v in g && a in g && Mirrored(g, u, undirected)
    ensures Mirrored(AddWeights(g, u, v, ws, undirected), u, undirected)
    ensures Weights(AddWeights(g, u, v, ws, undirected), a, b)
      == if a == u then (if b == v then AppendNew(Weights(g, u, v), ws) else Weights(g, u, b))
         else if undirected && a == v && b == u then AppendNew(Weights(g, v, u), ws)
         else Weights(g, a, b)
    decreases ws
  {
    if |ws| > 0 {
      var g1 := AddEdge(g, u, v, ws[0], undirected).arena;
      AddStep(g, u, v, ws[0], undirected, a, b);
      AddStep(g, u, v, ws[0], undirected, u, v);
      AddStep(g, u, v, ws[0], undirected, u, b);
      if v != u { AddStep(g, u, v, ws[0], undirected, v, u); }
      AddStepMirrored(g, u, v, ws[0], undirected);
      AddWeightsAt(g1, u, v, ws[1..], undirected, a, b);
      assert ws == [ws[0]] + ws[1..];
      AppendNewConcat(Weights(g, u, v), [ws[0]], ws[1..]);
      AppendNewConcat(Weights(g, v, u), [ws[0]], ws[1..]);
    }
  }

  /** The whole `setEdges` loop, from any arena where `u`'s edges are already mirrored. */
  lemma {:induction false} AddAllAt<T>(g: Arena<T>, u: Handle, es: seq<Adjacent>, undirected: bool, a: Handle, b: Handle)
    requires u in g && a in g && InArena(g, es) && Mirrored(g, u, undirected)
    ensures Weights(AddAll(g, u, es, undirected), a, b)
      == if a == u then AppendNew(Weights(g, u, b), Collect(es, b))
         else if undirected && b == u then AppendNew(Weights(g, a, u), Collect(es, a))
         else Weights(g, a, b)
    decreases es
  {
    if |es| > 0 {
      var e := es[0];
      var g1 := AddWeights(g, u, e.vertex, e.weights, undirected);
      AddWeightsAt(g, u, e.vertex, e.weights, undirected, a, b);
      AddWeightsAt(g, u, e.vertex, e.weights, undirected, u, b);
      AddWeightsAt(g, u, e.vertex, e.weights, undirected, a, u);
      AddAllAt(g1, u, es[1..], undirected, a, b);
      var xs := if e.vertex == b then e.weights else [];
      var ys := if e.vertex == a then e.weights else [];
      AppendNewConcat(Weights(g, u, b), xs, Collect(es[1..], b));
      AppendNewConcat(Weights(g, a, u), ys, Collect(es[1..], a));
    }
  }

  /**
   * What `setEdges` leaves: toward each vertex `b`, `u` holds the weights listed for `b`
   * without duplicates, in order of first occurrence; when undirected, every listed vertex
   * gains the weights it was given toward `u` that it did not already hold; nothing else changes.
   */
  lemma SetEdgesContents<T>(g: Arena<T>, u: Handle, es: seq<Adjacent>, undirected: bool, a: Handle, b: Handle)
    requires u in g && a in g && InArena(g, es)
    ensures Weights(SetEdges(g, u, es, undirected), a, b)
      == if a == u then AppendNew([], Collect(es, b))
         else if undirected && b == u then AppendNew(Weights(g, a, u), Collect(es, a))
         else Weights(g, a, b)
    ensures a == u ==> Distinct(Weights(SetEdges(g, u, es, undirected), a, b))
  {
    var g0 := g[u := g[u].(edges := map[])];
    assert Mirrored(g0, u, undirected);
    AddAllAt(g0, u, es, undirected, a, b);
    AppendNewFacts([], Collect(es, b));
  }

  /** `addEdge` in terms of recorded weights: it records `w` toward `v` and, when undirected, back. */
  lemma AddArcs<T>(g: Arena<T>, u: Handle, v: Handle, w: Weight, undirected: bool, a: Handle, b: Handle, x: Weight)
    requires u in g && v in g && a in g
    requires undirected && w in Weights(g, u, v) ==> w in Weights(g, v, u)
    ensures x in Weights(AddEdge(g, u, v, w, undirected).arena, a, b)
      <==> x in Weights(g, a, b) || (x == w && ((a == u && b == v) || (undirected && a == v && b == u)))
  {
    AppendNewFacts(Weights(g, v, u), [w]);
  }

  /** Vertices 0 and 1 joined both ways by weight 3, and an isolated vertex 2. */
  function TwoJoined(): (g: Arena<int>)
    ensures WellFormed(g) && Symmetric(g)
  {
    var g: Arena<int> := map[0 := WVertex(0, map[1 := [3]]), 1 := WVertex(0, map[0 := [3]]), 2 := WVertex(0, map[])];
    assert WellFormed(g) by {
      forall a, b | a in g && b in g[a].edges
        ensures g[a].edges[b] != [] && Distinct(g[a].edges[b])
      {
        assert a == 0 || a == 1;
      }
    }
    assert Symmetric(g) by {
      forall a, b, x | a in g && b in g && x in Weights(g, a, b)
        ensures x in Weights(g, b, a)
      {
        assert a == 0 || a == 1 || a == 2;
      }
    }
    g
  }

  /**
   * The undirected `setEdge` as written loses symmetry: replacing the edge `0 -- 1` of
   * weight 3 by `0 -- 2` of weight 5 removes only weight 5 from `1 -> 0`, so `1 -> 0`
   * keeps weight 3 while `0` no longer has any edge toward `1`.
   */
  lemma SetEdgeBreaksSymmetry()
    ensures var r := SetEdge(TwoJoined(), 0, 1, 2, 5, true).arena;
      3 in Weights(r, 1, 0) && 3 !in Weights(r, 0, 1) && !Symmetric(r)
  {
    var g := TwoJoined();
    var g1 := g[0 := g[0].(edges := g[0].edges - {1})];
    var g2 := AddEdge(g1, 0, 2, 5, true).arena;
    assert Weights(g2, 1, 0) == [3] && Weights(g2, 0, 1) == [];
    var g3 := RemoveEdge(g2, 1, 0, 5, false).arena;
    assert g3 == g2;
    var r := AddEdge(g3, 2, 0, 5, false).arena;
    assert SetEdge(g, 0, 1, 2, 5, true).arena == r;
    assert Weights(r, 1, 0) == [3] && Weights(r, 0, 1) == [];
    assert !(3 in Weights(r, 1, 0) ==> 3 in Weights(r, 0, 1));
  }

  /**
   * The corrected undirected `setEdge` keeps symmetry: the edge toward `oldVertex` is gone in
   * both directions, `w` is recorded between `u` and `newVertex` both ways, nothing else changes.
   */
  lemma SetEdgeMirroredArcs<T>(g: Arena<T>, u: Handle, oldVertex: Handle, newVertex: Handle, w: Weight, a: Handle, b: Handle, x: Weight)
    requires Symmetric(g) && u in g && oldVertex in g && newVertex in g && a in g
    requires HasEdge(g, u, oldVertex)
    ensures x in Weights(SetEdgeMirrored(g, u, oldVertex, newVertex, w, true).arena, a, b)
      <==> (x == w && ((a == u && b == newVertex) || (a == newVertex && b == u)))
           || (x in Weights(g, a, b) && !((a == u && b == oldVertex) || (a == oldVertex && b == u)))
  {
    var g1 := DropEntry(g, u, oldVertex);
    var g2 := AddEdge(g1, u, newVertex, w, true).arena;
    var g3 := DropEntry(g2, oldVertex, u);
    AddArcs(g1, u, newVertex, w, true, a, b, x);
    AddArcs(g3, newVertex, u, w, false, a, b, x);
    assert x in Weights(g1, a, b) <==> x in Weights(g, a, b) && !(a == u && b == oldVertex);
    assert x in Weights(g3, a, b) <==> x in Weights(g2, a, b) && !(a == oldVertex && b == u);
  }

  lemma SetEdgeMirroredKeepsSymmetric<T>(g: Arena<T>, u: Handle, oldVertex: Handle, newVertex: Handle, w: Weight)
    requires Symmetric(g) && u in g && oldVertex in g && newVertex in g
    ensures Symmetric(SetEdgeMirrored(g, u, oldVertex, newVertex, w, true).arena)
  {
    var r := SetEdgeMirrored(g, u, oldVertex, newVertex, w, true).arena;
    if HasEdge(g, u, oldVertex) {
      forall a, b, x | a in r && b in r && x in Weights(r, a, b)
        ensures x in Weights(r, b, a)
      {
        SetEdgeMirroredArcs(g, u, oldVertex, newVertex, w, a, b, x);
        SetEdgeMirroredArcs(g, u, oldVertex, newVertex, w, b, a, x);
      }
    }
  }
}

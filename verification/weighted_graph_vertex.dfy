/**
 * Weighted graph vertices (`WeightedGraphVertex`), modelled as an arena like the
 * unweighted ones. Each vertex maps every adjacent handle to the list of weights of the
 * parallel edges toward it, in the order they were added. Weights are only compared for
 * equality, so they are plain integers here.
 */
module WeightedGraphVertex {
  import GraphVertex
  import opened Sequences

  type Handle = GraphVertex.Handle

  type Weight = int

  datatype WVertex<T> = WVertex(value: T, edges: map<Handle, seq<Weight>>)

  type Arena<T> = map<Handle, WVertex<T>>

  /** What a mutator returns: the source's success flag and the arena afterwards. */
  datatype Step<T> = Step(ok: bool, arena: Arena<T>)

  /** A new vertex holds the given value and has no edges. */
  function NewVertex<T>(val: T): (v: WVertex<T>)
    ensures v.value == val && v.edges == map[]
  {
    WVertex(val, map[])
  }

  /** The weights recorded from `a` toward `b`; empty when there is no entry. */
  function Weights<T>(g: Arena<T>, a: Handle, b: Handle): seq<Weight>
    requires a in g
  {
    if b in g[a].edges then g[a].edges[b] else []
  }

  /**
   * `a.hasEdge(b)`: an entry exists, whatever its weights. In a well-formed arena that is
   * exactly when some weight is recorded from `a` toward `b`, and `b` is then a vertex.
   */
  predicate HasEdge<T>(g: Arena<T>, a: Handle, b: Handle): (e: bool)
    requires a in g
    ensures WellFormed(g) ==> (e <==> Weights(g, a, b) != [])
    ensures WellFormed(g) && e ==> b in g
  {
    b in g[a].edges
  }

  /**
   * The invariant the mutators keep: edges stay inside the arena, and every stored
   * weight list is non-empty and free of duplicates.
   */
  ghost predicate WellFormed<T>(g: Arena<T>)
  {
    && (forall a :: a in g ==> g[a].edges.Keys <= g.Keys)
    && (forall a, b :: a in g && b in g[a].edges ==> g[a].edges[b] != [] && Distinct(g[a].edges[b]))
  }

  /** Every weighted edge is matched by a reverse edge of the same weight. */
  ghost predicate Symmetric<T>(g: Arena<T>)
  {
    forall a, b, x :: a in g && b in g && x in Weights(g, a, b) ==> x in Weights(g, b, a)
  }

  /** Two arenas hold the same vertices with the same values. */
  ghost predicate SameValues<T>(g: Arena<T>, g': Arena<T>)
  {
    g'.Keys == g.Keys && forall w :: w in g ==> g'[w].value == g[w].value
  }

  /** `Array.prototype.indexOf`: the first position of `x`, or -1. */
  function IndexOf<X(==)>(xs: seq<X>, x: X): (i: int)
    ensures -1 <= i < |xs|
    ensures i == -1 <==> x !in xs
    ensures 0 <= i ==> xs[i] == x && x !in xs[..i]
  {
    if |xs| == 0 then -1
    else if xs[0] == x then 0
    else
      var i := IndexOf(xs[1..], x);
      assert 0 <= i ==> xs[..i + 1] == [xs[0]] + xs[1..][..i];
      if i == -1 then -1 else i + 1
  }

  /** `xs.splice(xs.indexOf(x), 1)` when `x` occurs: drops its first occurrence. */
  function DeleteFirst<X(==)>(xs: seq<X>, x: X): (r: seq<X>)
    ensures x !in xs ==> r == xs
    ensures x in xs ==> |r| == |xs| - 1
    ensures x in xs ==> exists i :: 0 <= i < |xs| && xs[i] == x && x !in xs[..i] && r == xs[..i] + xs[i + 1..]
  {
    var i := IndexOf(xs, x);
    if i == -1 then xs else xs[..i] + xs[i + 1..]
  }

  /** Appends each element of `xs` to `base` unless it is already there: an add with duplicate check. */
  function AppendNew<X(==)>(base: seq<X>, xs: seq<X>): seq<X>
    decreases xs
  {
    if |xs| == 0 then base
    else AppendNew(if xs[0] in base then base else base + [xs[0]], xs[1..])
  }

  /**
   * `u.addEdge({vertex: v, weight: w, undirected})`: fails without change when `w` is already
   * recorded toward `v`; otherwise appends `w` to that list (creating it if needed) and, when
   * undirected, runs the directed add of `w` from `v` back to `u`. The source creates the empty
   * list before its duplicate check; the check cannot fail on an empty list, so no empty entry
   * survives and the model creates the list only when it appends.
   */
  function AddEdge<T>(g: Arena<T>, u: Handle, v: Handle, w: Weight, undirected: bool): (r: Step<T>)
    requires u in g && v in g
    decreases undirected
    ensures SameValues(g, r.arena)
    ensures r.ok <==> w !in Weights(g, u, v)
    ensures !r.ok ==> r.arena == g
    ensures r.ok ==> forall a, b :: a in g ==>
      Weights(r.arena, a, b) == (if a == u && b == v then Weights(g, u, v) + [w]
                                 else if undirected && a == v && b == u then AppendNew(Weights(g, v, u), [w])
                                 else Weights(g, a, b))
    ensures r.ok ==> forall a, b :: a in g ==>
      (HasEdge(r.arena, a, b) <==> HasEdge(g, a, b) || (a == u && b == v) || (undirected && a == v && b == u))
  {
    var ws := Weights(g, u, v);
    if w in ws then Step(false, g)
    else
      var g1 := g[u := g[u].(edges := g[u].edges[v := ws + [w]])];
      if undirected then Step(true, AddEdge(g1, v, u, w, false).arena) else Step(true, g1)
  }

  /**
   * `u.removeEdge({vertex: v, weight: w, undirected})`: fails without change when there is no
   * entry for `v` or `w` is not in it; otherwise removes the first occurrence of `w`, deletes the
   * entry once its list is empty and, when undirected, runs the directed removal from `v`.
   */
  function RemoveEdge<T>(g: Arena<T>, u: Handle, v: Handle, w: Weight, undirected: bool): (r: Step<T>)
    requires u in g && v in g
    decreases undirected
    ensures SameValues(g, r.arena)
    ensures r.ok <==> w in Weights(g, u, v)
    ensures !r.ok ==> r.arena == g
    ensures r.ok ==> forall a, b :: a in g ==>
      Weights(r.arena, a, b) == (if a == u && b == v && undirected && u == v then DeleteFirst(DeleteFirst(Weights(g, u, v), w), w)
                                 else if a == u && b == v then DeleteFirst(Weights(g, u, v), w)
                                 else if undirected && a == v && b == u then DeleteFirst(Weights(g, v, u), w)
                                 else Weights(g, a, b))
  {
    if w !in Weights(g, u, v) then Step(false, g)
    else
      var g1 := DropWeight(g, u, v, w);
      if undirected then Step(true, RemoveEdge(g1, v, u, w, false).arena) else Step(true, g1)
  }

  /**
   * The directed part of a removal that succeeds: splices the first `w` out of the list toward
   * `v` and deletes the entry when the list becomes empty.
   */
  function DropWeight<T>(g: Arena<T>, u: Handle, v: Handle, w: Weight): (r: Arena<T>)
    requires u in g && w in Weights(g, u, v)
    ensures SameValues(g, r)
    ensures forall a, b :: a in g ==>
      Weights(r, a, b) == if a == u && b == v then DeleteFirst(Weights(g, u, v), w) else Weights(g, a, b)
    ensures forall a, b :: a in g ==>
      (HasEdge(r, a, b) <==> HasEdge(g, a, b) && !(a == u && b == v && Weights(r, u, v) == []))
  {
    var ws := g[u].edges[v];
    var i := IndexOf(ws, w);
    var ws' := ws[..i] + ws[i + 1..];
    var edges' := if |ws'| == 0 then g[u].edges - {v} else g[u].edges[v := ws'];
    g[u := g[u].(edges := edges')]
  }

  /**
   * `u.setEdge({oldVertex, newVertex, weight: w, undirected})`: fails without change when
   * `oldVertex` is not adjacent; otherwise drops every weight toward `oldVertex`, adds `w`
   * toward `newVertex` (passing `undirected` on), and succeeds even when that add was a
   * duplicate. When undirected it then removes `w` from `oldVertex -> u` and adds `w` to
   * `newVertex -> u`, where the duplicate check absorbs the second mirror.
   */
  function SetEdge<T>(g: Arena<T>, u: Handle, oldVertex: Handle, newVertex: Handle, w: Weight, undirected: bool): (r: Step<T>)
    requires u in g && oldVertex in g && newVertex in g
    ensures SameValues(g, r.arena)
    ensures r.ok <==> HasEdge(g, u, oldVertex)
    ensures !r.ok ==> r.arena == g
  {
    if oldVertex !in g[u].edges then Step(false, g)
    else
      var g1 := g[u := g[u].(edges := g[u].edges - {oldVertex})];
      var g2 := AddEdge(g1, u, newVertex, w, undirected).arena;
      if undirected then
        var g3 := RemoveEdge(g2, oldVertex, u, w, false).arena;
        Step(true, AddEdge(g3, newVertex, u, w, false).arena)
      else Step(true, g2)
  }

  /**
   * A successful `setEdge` leaves `w` toward `newVertex` (and, when undirected, back from it)
   * and no entry toward a different `oldVertex`.
   */
  lemma SetEdgeEffect<T>(g: Arena<T>, u: Handle, oldVertex: Handle, newVertex: Handle, w: Weight, undirected: bool)
    requires u in g && oldVertex in g && newVertex in g
    requires HasEdge(g, u, oldVertex)
    ensures var r := SetEdge(g, u, oldVertex, newVertex, w, undirected).arena;
      && w in Weights(r, u, newVertex)
      && (undirected ==> w in Weights(r, newVertex, u))
      && (oldVertex != newVertex ==> !HasEdge(r, u, oldVertex))
  {
    var g1 := g[u := g[u].(edges := g[u].edges - {oldVertex})];
    var g2 := AddEdge(g1, u, newVertex, w, undirected).arena;
    assert w in Weights(g2, u, newVertex);
    assert oldVertex != newVertex ==> !HasEdge(g2, u, oldVertex);
    if undirected {
      var g3 := RemoveEdge(g2, oldVertex, u, w, false).arena;
      assert oldVertex != newVertex ==> !HasEdge(g3, u, oldVertex);
      assert Weights(g3, u, newVertex) == Weights(g2, u, newVertex) || (oldVertex == u && newVertex == u);
      var g4 := AddEdge(g3, newVertex, u, w, false).arena;
      assert w in Weights(g4, newVertex, u);
    }
  }

  /**
   * A successful directed `setEdge` empties the entry toward `oldVertex`, adds `w` once toward
   * `newVertex` and changes nothing else.
   */
  lemma SetEdgeDirected<T>(g: Arena<T>, u: Handle, oldVertex: Handle, newVertex: Handle, w: Weight, a: Handle, b: Handle)
    requires u in g && oldVertex in g && newVertex in g && a in g
    requires HasEdge(g, u, oldVertex)
    ensures Weights(SetEdge(g, u, oldVertex, newVertex, w, false).arena, a, b)
      == if a == u && b == newVertex then AppendNew(if newVertex == oldVertex then [] else Weights(g, u, newVertex), [w])
         else if a == u && b == oldVertex then []
         else Weights(g, a, b)
  {
    var g1 := g[u := g[u].(edges := g[u].edges - {oldVertex})];
    assert Weights(g1, u, newVertex) == if newVertex == oldVertex then [] else Weights(g, u, newVertex);
  }

  /** Deletes the whole entry `a` holds toward `b`, whatever its weights. */
  function DropEntry<T>(g: Arena<T>, a: Handle, b: Handle): (r: Arena<T>)
    requires a in g
    ensures SameValues(g, r)
    ensures !HasEdge(r, a, b)
    ensures forall c, d :: c in g && !(c == a && d == b) ==> Weights(r, c, d) == Weights(g, c, d)
  {
    g[a := g[a].(edges := g[a].edges - {b})]
  }

  /**
   * `setEdge` as evidently intended for undirected edges: `u` drops every weight toward
   * `oldVertex`, so `oldVertex` drops its whole entry toward `u` too, instead of only `w`.
   * Everything else is as in `SetEdge`.
   */
  function SetEdgeMirrored<T>(g: Arena<T>, u: Handle, oldVertex: Handle, newVertex: Handle, w: Weight, undirected: bool): (r: Step<T>)
    requires u in g && oldVertex in g && newVertex in g
    ensures SameValues(g, r.arena)
    ensures r.ok <==> HasEdge(g, u, oldVertex)
    ensures !r.ok ==> r.arena == g
  {
    if oldVertex !in g[u].edges then Step(false, g)
    else
      var g1 := DropEntry(g, u, oldVertex);
      var g2 := AddEdge(g1, u, newVertex, w, undirected).arena;
      if undirected then
        var g3 := DropEntry(g2, oldVertex, u);
        Step(true, AddEdge(g3, newVertex, u, w, false).arena)
      else Step(true, g2)
  }

  /** One element of the `edges` argument of `setEdges`: a vertex and weights toward it. */
  datatype Adjacent = Adjacent(vertex: Handle, weights: seq<Weight>)

  predicate InArena<T>(g: Arena<T>, es: seq<Adjacent>)
  {
    forall i :: 0 <= i < |es| ==> es[i].vertex in g
  }

  /** Runs `u.addEdge({vertex: v, weight, undirected})` for every weight of `ws`, in order. */
  function AddWeights<T>(g: Arena<T>, u: Handle, v: Handle, ws: seq<Weight>, undirected: bool): (r: Arena<T>)
    requires u in g && v in g
    ensures SameValues(g, r)
    decreases ws
  {
    if |ws| == 0 then g
    else AddWeights(AddEdge(g, u, v, ws[0], undirected).arena, u, v, ws[1..], undirected)
  }

  /** The loop of `setEdges`: adds every weight of every element of `es`, in order. */
  function AddAll<T>(g: Arena<T>, u: Handle, es: seq<Adjacent>, undirected: bool): (r: Arena<T>)
    requires u in g && InArena(g, es)
    ensures SameValues(g, r)
    decreases es
  {
    if |es| == 0 then g
    else AddAll(AddWeights(g, u, es[0].vertex, es[0].weights, undirected), u, es[1..], undirected)
  }

  /**
   * `u.setEdges({edges, undirected})`: clears the map of `u` and adds every listed weight.
   * Clearing does not touch the mirror entries other vertices hold toward `u`.
   */
  function SetEdges<T>(g: Arena<T>, u: Handle, es: seq<Adjacent>, undirected: bool): (r: Arena<T>)
    requires u in g && InArena(g, es)
    ensures SameValues(g, r)
  {
    AddAll(g[u := g[u].(edges := map[])], u, es, undirected)
  }

  /** `u.get()`: the value of `u`, the one that `u.set` of it leaves the arena unchanged with. */
  function GetValue<T>(g: Arena<T>, u: Handle): (val: T)
    requires u in g
    ensures SetValue(g, u, val) == g
  {
    g[u].value
  }

  /** `u.set(val)`: changes the value of `u` and nothing else. */
  function SetValue<T>(g: Arena<T>, u: Handle, val: T): (r: Arena<T>)
    requires u in g
    ensures r.Keys == g.Keys
    ensures r[u].value == val
    ensures forall a :: a in g ==> r[a].edges == g[a].edges
    ensures forall a :: a in g && a != u ==> r[a].value == g[a].value
  {
    g[u := g[u].(value := val)]
  }

  /**
   * `u.getEdges()` and the iterator: one `{vertex, weights}` record per adjacent vertex.
   * The order of the source's `Map` (insertion order) is not modelled.
   */
  method GetEdges<T>(g: Arena<T>, u: Handle) returns (es: seq<Adjacent>)
    requires u in g
    ensures forall i, j :: 0 <= i < j < |es| ==> es[i].vertex != es[j].vertex
    ensures forall i :: 0 <= i < |es| ==> HasEdge(g, u, es[i].vertex) && es[i].weights == Weights(g, u, es[i].vertex)
    ensures forall b :: HasEdge(g, u, b) ==> exists i :: 0 <= i < |es| && es[i].vertex == b
  {
    var edges := g[u].edges;
    var rest := edges.Keys;
    es := [];
    while rest != {}
      invariant rest <= edges.Keys
      invariant forall i :: 0 <= i < |es| ==> es[i].vertex in edges && es[i].vertex !in rest && es[i].weights == edges[es[i].vertex]
      invariant forall b :: b in edges && b !in rest ==> exists i :: 0 <= i < |es| && es[i].vertex == b
      invariant forall i, j :: 0 <= i < j < |es| ==> es[i].vertex != es[j].vertex
      decreases rest
    {
      var b :| b in rest;
      ghost var prev := es;
      es := es + [Adjacent(b, edges[b])];
      rest := rest - {b};
      assert es[|prev|].vertex == b;
      assert forall i :: 0 <= i < |prev| ==> es[i] == prev[i];
    }
  }
}

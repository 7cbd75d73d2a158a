/**
 * Unweighted graph vertices (`GraphVertex`), modelled as an arena: each vertex is
 * addressed by a handle, and its adjacency set holds handles instead of object
 * references. A mutator that the source runs on `this` takes the arena and the
 * handle of `this`, and returns the boolean the source returns with the new arena.
 */
module GraphVertex {

  type Handle = nat

  datatype Vertex<T> = Vertex(value: T, edges: set<Handle>)

  type Arena<T> = map<Handle, Vertex<T>>

  /** What a mutator returns: the source's success flag and the arena afterwards. */
  datatype Step<T> = Step(ok: bool, arena: Arena<T>)

  /** A new vertex holds the given value and has no edges. */
  function NewVertex<T>(val: T): (v: Vertex<T>)
    ensures v.value == val && v.edges == {}
  {
    Vertex(val, {})
  }

  /**
   * `u.hasEdge(v)`. In a closed arena an edge leads to a vertex of the arena, and in a
   * symmetric one `u` has an edge toward `v` exactly when `v` has one toward `u`.
   */
  predicate HasEdge<T>(g: Arena<T>, u: Handle, v: Handle): (e: bool)
    requires u in g
    ensures Closed(g) && e ==> v in g
    ensures Symmetric(g) && v in g ==> (e <==> u in g[v].edges)
  {
    v in g[u].edges
  }

  /** Every edge of the arena points at a vertex of the arena. */
  ghost predicate Closed<T>(g: Arena<T>)
  {
    forall u :: u in g ==> g[u].edges <= g.Keys
  }

  /** Every edge is matched by its reverse edge: the shape undirected edges are meant to keep. */
  ghost predicate Symmetric<T>(g: Arena<T>)
  {
    forall u, v :: u in g && v in g && v in g[u].edges ==> u in g[v].edges
  }

  /** Two arenas hold the same vertices with the same values. */
  ghost predicate SameValues<T>(g: Arena<T>, g': Arena<T>)
  {
    g'.Keys == g.Keys && forall w :: w in g ==> g'[w].value == g[w].value
  }

  /**
   * `u.addEdge({vertex: v, undirected})`: fails without any change when `v` is already
   * adjacent; otherwise adds the edge and, when undirected, runs the directed add from `v`
   * back to `u` (which its own duplicate check absorbs on a self-loop).
   */
  function AddEdge<T>(g: Arena<T>, u: Handle, v: Handle, undirected: bool): (r: Step<T>)
    requires u in g && v in g
    decreases undirected
    ensures SameValues(g, r.arena)
    ensures r.ok <==> !HasEdge(g, u, v)
    ensures !r.ok ==> r.arena == g
    ensures r.ok ==> forall w, x :: w in g ==>
      (x in r.arena[w].edges <==> x in g[w].edges || (w == u && x == v) || (undirected && w == v && x == u))
  {
    if v in g[u].edges then Step(false, g)
    else
      var g1 := g[u := g[u].(edges := g[u].edges + {v})];
      if undirected then Step(true, AddEdge(g1, v, u, false).arena) else Step(true, g1)
  }

  /**
   * `u.removeEdge({vertex: v, undirected})`: fails without any change when `v` is not
   * adjacent; otherwise deletes the edge and, when undirected, the reverse edge too.
   */
  function RemoveEdge<T>(g: Arena<T>, u: Handle, v: Handle, undirected: bool): (r: Step<T>)
    requires u in g && v in g
    decreases undirected
    ensures SameValues(g, r.arena)
    ensures r.ok <==> HasEdge(g, u, v)
    ensures !r.ok ==> r.arena == g
    ensures r.ok ==> forall w, x :: w in g ==>
      (x in r.arena[w].edges <==> x in g[w].edges && !(w == u && x == v) && !(undirected && w == v && x == u))
  {
    if v !in g[u].edges then Step(false, g)
    else
      var g1 := g[u := g[u].(edges := g[u].edges - {v})];
      if undirected then Step(true, RemoveEdge(g1, v, u, false).arena) else Step(true, g1)
  }

  /**
   * `u.setEdge({oldVertex, newVertex, undirected})`: fails without change when `oldVertex`
   * is not adjacent; otherwise replaces it by `newVertex` in the adjacency set and, when
   * undirected, removes `oldVertex -> u` and then adds `newVertex -> u`.
   */
  function SetEdge<T>(g: Arena<T>, u: Handle, oldVertex: Handle, newVertex: Handle, undirected: bool): (r: Step<T>)
    requires u in g && oldVertex in g && newVertex in g
    ensures SameValues(g, r.arena)
    ensures r.ok <==> HasEdge(g, u, oldVertex)
    ensures !r.ok ==> r.arena == g
    ensures r.ok ==> forall w, x :: w in g ==>
      (x in r.arena[w].edges <==>
         (undirected && w == newVertex && x == u)
         || (!(undirected && w == oldVertex && x == u)
             && ((x in g[w].edges && !(w == u && x == oldVertex)) || (w == u && x == newVertex))))
  {
    if oldVertex !in g[u].edges then Step(false, g)
    else
      var g1 := g[u := g[u].(edges := g[u].edges - {oldVertex} + {newVertex})];
      if undirected then
        var g2 := RemoveEdge(g1, oldVertex, u, false).arena;
        Step(true, AddEdge(g2, newVertex, u, false).arena)
      else Step(true, g1)
  }

  /** Runs `u.addEdge({vertex: e, undirected})` for every `e` of `es`, in order. */
  function AddAll<T>(g: Arena<T>, u: Handle, es: seq<Handle>, undirected: bool): (r: Arena<T>)
    requires u in g && forall i :: 0 <= i < |es| ==> es[i] in g
    ensures SameValues(g, r)
  {
    if |es| == 0 then g
    else AddAll(AddEdge(g, u, es[0], undirected).arena, u, es[1..], undirected)
  }

  /** One step of `AddAll`: adding `e` keeps every edge of `u` mirrored when undirected. */
  lemma AddMirrored<T>(g: Arena<T>, u: Handle, e: Handle, undirected: bool)
    requires u in g && e in g
    requires undirected ==> forall w :: w in g && w in g[u].edges ==> u in g[w].edges
    ensures AddEdge(g, u, e, undirected).arena[u].edges == g[u].edges + {e}
    ensures forall w :: w in g && w != u ==>
      AddEdge(g, u, e, undirected).arena[w].edges == g[w].edges + (if undirected && w == e then {u} else {})
    ensures var g1 := AddEdge(g, u, e, undirected).arena;
      undirected ==> forall w :: w in g1 && w in g1[u].edges ==> u in g1[w].edges
  {
    var g1 := AddEdge(g, u, e, undirected).arena;
    if e !in g[u].edges {
      assert forall w, x :: w in g ==>
        (x in g1[w].edges <==> x in g[w].edges || (w == u && x == e) || (undirected && w == e && x == u));
    }
  }

  lemma ElementsCons<X>(xs: seq<X>)
    requires |xs| > 0
    ensures (set x | x in xs) == {xs[0]} + (set x | x in xs[1..])
  {
    assert xs == [xs[0]] + xs[1..];
  }

  /** `AddAll` adds exactly the given vertices to `u`'s adjacency set. */
  lemma {:induction false} AddAllOwnEdges<T>(g: Arena<T>, u: Handle, es: seq<Handle>, undirected: bool)
    requires u in g && forall i :: 0 <= i < |es| ==> es[i] in g
    requires undirected ==> forall w :: w in g && w in g[u].edges ==> u in g[w].edges
    ensures AddAll(g, u, es, undirected)[u].edges == g[u].edges + (set x | x in es)
  {
    if |es| > 0 {
      var g1 := AddEdge(g, u, es[0], undirected).arena;
      AddMirrored(g, u, es[0], undirected);
      AddAllOwnEdges(g1, u, es[1..], undirected);
      ElementsCons(es);
      assert AddAll(g, u, es, undirected) == AddAll(g1, u, es[1..], undirected);
    }
  }

  /**
   * When undirected, `AddAll` adds `u` to the adjacency set of every given vertex and
   * changes no other vertex. The mirror of an add that fails as a duplicate is skipped,
   * so this holds when every edge `u` already has is mirrored, as it is right after a clear.
   */
  lemma {:induction false} AddAllMirrorEdges<T>(g: Arena<T>, u: Handle, es: seq<Handle>, undirected: bool, w: Handle)
    requires u in g && forall i :: 0 <= i < |es| ==> es[i] in g
    requires undirected ==> forall w :: w in g && w in g[u].edges ==> u in g[w].edges
    requires w in g && w != u
    ensures AddAll(g, u, es, undirected)[w].edges == g[w].edges + (if undirected && w in es then {u} else {})
  {
    if |es| > 0 {
      var g1 := AddEdge(g, u, es[0], undirected).arena;
      AddMirrored(g, u, es[0], undirected);
      AddAllMirrorEdges(g1, u, es[1..], undirected, w);
      assert w in es <==> w == es[0] || w in es[1..] by {
        assert es == [es[0]] + es[1..];
      }
    }
  }

  /**
   * `u.setEdges({edges, undirected})`: clears the adjacency set of `u` and adds every given
   * vertex. Clearing does not touch the mirror edges other vertices hold toward `u`.
   */
  function SetEdges<T>(g: Arena<T>, u: Handle, es: seq<Handle>, undirected: bool): (r: Arena<T>)
    requires u in g && forall i :: 0 <= i < |es| ==> es[i] in g
    ensures SameValues(g, r)
    ensures r[u].edges == set x | x in es
    ensures forall w :: w in g && w != u ==>
      r[w].edges == g[w].edges + (if undirected && w in es then {u} else {})
  {
    var g0 := g[u := g[u].(edges := {})];
    AddAllOwnEdges(g0, u, es, undirected);
    forall w | w in g && w != u
      ensures AddAll(g0, u, es, undirected)[w].edges == g[w].edges + (if undirected && w in es then {u} else {})
    {
      AddAllMirrorEdges(g0, u, es, undirected, w);
    }
    AddAll(g0, u, es, undirected)
  }

  /** `u.get()`: the value of `u`, the one that `u.set` of it leaves the arena unchanged with. */
  function GetValue<T>(g: Arena<T>, u: Handle): (val: T)
    requires u in g
    ensures SetValue(g, u, val) == g
  {
    g[u].value
  }

  /** `u.set(val)`: changes the value of `u` and nothing else. */
  function SetValue<T>(g: Arena<T>, u: Handle, val: T): (r: Arena<T>)
    requires u in g
    ensures r.Keys == g.Keys
    ensures r[u].value == val
    ensures forall w :: w in g ==> r[w].edges == g[w].edges
    ensures forall w :: w in g && w != u ==> r[w].value == g[w].value
  {
    g[u := g[u].(value := val)]
  }

  /**
   * `u.getEdges()` and the iterator: every adjacent vertex exactly once. The order of the
   * source's `Set` (insertion order) is not modelled.
   */
  method GetEdges<T>(g: Arena<T>, u: Handle) returns (es: seq<Handle>)
    requires u in g
    ensures forall i, j :: 0 <= i < j < |es| ==> es[i] != es[j]
    ensures forall x :: x in es <==> HasEdge(g, u, x)
  {
    var rest := g[u].edges;
    es := [];
    while rest != {}
      invariant rest <= g[u].edges
      invariant forall x :: x in es <==> x in g[u].edges && x !in rest
      invariant forall i, j :: 0 <= i < j < |es| ==> es[i] != es[j]
      decreases rest
    {
      var x :| x in rest;
      es := es + [x];
      rest := rest - {x};
    }
  }

  /** A directed add that succeeded is undone exactly by the matching directed remove. */
  lemma AddRemoveRoundTrip<T>(g: Arena<T>, u: Handle, v: Handle)
    requires u in g && v in g
    requires AddEdge(g, u, v, false).ok
    ensures RemoveEdge(AddEdge(g, u, v, false).arena, u, v, false) == Step(true, g)
  {
    var g1 := AddEdge(g, u, v, false).arena;
    var g2 := RemoveEdge(g1, u, v, false).arena;
    assert g2[u].edges == g[u].edges;
    assert g2 == g;
  }

  /** An undirected add between two unconnected vertices is undone by the undirected remove. */
  lemma UndirectedRoundTrip<T>(g: Arena<T>, u: Handle, v: Handle)
    requires u in g && v in g
    requires !HasEdge(g, u, v) && !HasEdge(g, v, u)
    ensures RemoveEdge(AddEdge(g, u, v, true).arena, u, v, true) == Step(true, g)
  {
    var g1 := AddEdge(g, u, v, true).arena;
    var g2 := RemoveEdge(g1, u, v, true).arena;
    forall w | w in g
      ensures g2[w] == g[w]
    {
      assert g2[w].edges == g[w].edges;
    }
    assert g2 == g;
  }

  /** On a self-loop the mirror call is a no-op: undirected and directed adds coincide. */
  lemma SelfLoopMirror<T>(g: Arena<T>, u: Handle)
    requires u in g
    ensures AddEdge(g, u, u, true) == AddEdge(g, u, u, false)
    ensures RemoveEdge(g, u, u, true) == RemoveEdge(g, u, u, false)
  {
  }

  /** A successful undirected add leaves both directions of the edge in place. */
  lemma UndirectedAddBothWays<T>(g: Arena<T>, u: Handle, v: Handle)
    requires u in g && v in g
    requires AddEdge(g, u, v, true).ok
    ensures HasEdge(AddEdge(g, u, v, true).arena, u, v)
    ensures HasEdge(AddEdge(g, u, v, true).arena, v, u)
  {
  }

  /** Every mutator keeps all edges inside the arena: `addEdge`. */
  lemma AddEdgeKeepsClosed<T>(g: Arena<T>, u: Handle, v: Handle, undirected: bool)
    requires Closed(g) && u in g && v in g
    ensures Closed(AddEdge(g, u, v, undirected).arena)
  {
  }

  /** Every mutator keeps all edges inside the arena: `removeEdge`. */
  lemma RemoveEdgeKeepsClosed<T>(g: Arena<T>, u: Handle, v: Handle, undirected: bool)
    requires Closed(g) && u in g && v in g
    ensures Closed(RemoveEdge(g, u, v, undirected).arena)
  {
  }

  /** Every mutator keeps all edges inside the arena: `setEdge`. */
  lemma SetEdgeKeepsClosed<T>(g: Arena<T>, u: Handle, v: Handle, w: Handle, undirected: bool)
    requires Closed(g) && u in g && v in g && w in g
    ensures Closed(SetEdge(g, u, v, w, undirected).arena)
  {
  }

  /** Every mutator keeps all edges inside the arena: `setEdges`. */
  lemma SetEdgesKeepsClosed<T>(g: Arena<T>, u: Handle, es: seq<Handle>, undirected: bool)
    requires Closed(g) && u in g
    requires forall i :: 0 <= i < |es| ==> es[i] in g
    ensures Closed(SetEdges(g, u, es, undirected))
  {
  }

  /** Undirected adds, removes and replacements keep every edge matched by its reverse. */
  lemma UndirectedKeepsSymmetric<T>(g: Arena<T>, u: Handle, v: Handle, w: Handle)
    requires Symmetric(g) && u in g && v in g && w in g
    ensures Symmetric(AddEdge(g, u, v, true).arena)
    ensures Symmetric(RemoveEdge(g, u, v, true).arena)
    ensures Symmetric(SetEdge(g, u, v, w, true).arena)
  {
  }
}

/**
 * The doubly linked list: head, tail and a size counter over nodes joined by `next` and
 * `prev` links, with an injected comparator for which "equal" means `compare(a, b) == 0`.
 * The nodes live in an arena keyed by handle; `Linked(l, ids)` says that the handles `ids`,
 * in order, form the chain from head to tail, and the list's contents are their values.
 */
module DoublyLinkedList {
  import opened Wrappers
  import opened ListNode
  import opened Sequences

  /** The list object. `alloc` is the next unused handle, standing in for allocation. */
  datatype DList<T> = DList(nodes: map<Ref, Node<T>>, head: Option<Ref>, tail: Option<Ref>, size: int, alloc: Ref)

  function First(ids: seq<Ref>): Option<Ref>
  {
    if |ids| == 0 then None else Some(ids[0])
  }

  function Last(ids: seq<Ref>): Option<Ref>
  {
    if |ids| == 0 then None else Some(ids[|ids| - 1])
  }

  /** The link the node at position `i` of the chain `ids` must hold to its successor. */
  function NextOf(ids: seq<Ref>, i: nat): Option<Ref>
  {
    if i + 1 < |ids| then Some(ids[i + 1]) else None
  }

  /** The link the node at position `i` of the chain `ids` must hold to its predecessor. */
  function PrevOf(ids: seq<Ref>, i: nat): Option<Ref>
    requires i <= |ids|
  {
    if i == 0 then None else Some(ids[i - 1])
  }

  /** Every handle of the chain names a node whose `next` is its successor in the chain. */
  ghost predicate Forward<T>(nodes: map<Ref, Node<T>>, ids: seq<Ref>)
  {
    && (forall i :: 0 <= i < |ids| ==> ids[i] in nodes)
    && (forall i {:trigger nodes[ids[i]]} :: 0 <= i < |ids| ==> nodes[ids[i]].next == NextOf(ids, i))
  }

  /** Every node of the chain has its predecessor in the chain as `prev`. */
  ghost predicate Backward<T>(nodes: map<Ref, Node<T>>, ids: seq<Ref>)
    requires forall i :: 0 <= i < |ids| ==> ids[i] in nodes
  {
    forall i {:trigger nodes[ids[i]]} :: 0 <= i < |ids| ==> nodes[ids[i]].prev == PrevOf(ids, i)
  }

  /**
   * The link invariant: the distinct handles `ids` name nodes of the arena (which may also hold
   * nodes no longer reachable, as a removed node is in the source); head and tail are the first
   * and last of them, both null exactly when the list is empty; each node's `next` is its
   * successor and its `prev` its predecessor, so `head.prev` and `tail.next` are null; and the
   * size counter is the number of nodes.
   */
  ghost predicate Linked<T>(l: DList<T>, ids: seq<Ref>)
  {
    && l.size == |ids|
    && l.head == First(ids) && l.tail == Last(ids)
    && Distinct(ids) && Forward(l.nodes, ids) && Backward(l.nodes, ids)
    && (forall r :: r in l.nodes ==> r < l.alloc)
  }

  /** The handles met following `next` links from `cur`, at most `n` of them. */
  function Spine<T>(nodes: map<Ref, Node<T>>, cur: Option<Ref>, n: nat): seq<Ref>
    decreases n
  {
    if n == 0 then []
    else match cur
      case None => []
      case Some(r) => if r in nodes then [r] + Spine(nodes, nodes[r].next, n - 1) else []
  }

  /** The chain of a list: what following `next` from the head for `size` steps meets. */
  function Ids<T>(l: DList<T>): seq<Ref>
  {
    if l.size < 0 then [] else Spine(l.nodes, l.head, l.size)
  }

  ghost predicate Valid<T>(l: DList<T>)
  {
    Linked(l, Ids(l))
  }

  /** Following links from position `k` of a linked chain meets exactly the rest of the chain. */
  lemma {:induction false} SpineFrom<T>(nodes: map<Ref, Node<T>>, ids: seq<Ref>, k: nat)
    requires Forward(nodes, ids) && k <= |ids|
    ensures Spine(nodes, if k < |ids| then Some(ids[k]) else None, |ids| - k) == ids[k..]
    decreases |ids| - k
  {
    if k < |ids| {
      assert nodes[ids[k]].next == NextOf(ids, k);
      SpineFrom(nodes, ids, k + 1);
      assert ids[k..] == [ids[k]] + ids[k + 1..];
    }
  }

  /** The chain of a list is determined by its links: a linked list is valid, with that chain. */
  lemma LinkedIsValid<T>(l: DList<T>, ids: seq<Ref>)
    requires Linked(l, ids)
    ensures Ids(l) == ids && Valid(l)
  {
    SpineFrom(l.nodes, ids, 0);
  }

  /** The values along a chain. */
  function Values<T>(nodes: map<Ref, Node<T>>, ids: seq<Ref>): (s: seq<T>)
    requires forall i :: 0 <= i < |ids| ==> ids[i] in nodes
    ensures |s| == |ids| && forall i {:trigger s[i]} :: 0 <= i < |ids| ==> s[i] == nodes[ids[i]].val
  {
    if |ids| == 0 then [] else [nodes[ids[0]].val] + Values(nodes, ids[1..])
  }

  /** The list's contents, head to tail. */
  ghost function Contents<T>(l: DList<T>): seq<T>
    requires Valid(l)
  {
    Values(l.nodes, Ids(l))
  }

  /** The size counter is the length of the contents. */
  lemma SizeIsLength<T>(l: DList<T>)
    requires Valid(l)
    ensures l.size == |Contents(l)|
  {
  }

  /** `new DoublyLinkedList(compare)`: no nodes, head and tail null, size 0. */
  function Empty<T>(): (l: DList<T>)
    ensures Valid(l) && Contents(l) == []
  {
    var l := DList(map[], None, None, 0, 0);
    LinkedIsValid(l, []);
    l
  }

  /**
   * The links one iteration of `add` writes: a new node holding `v` is linked after the tail,
   * or becomes both head and tail of an empty list, and the size grows by one.
   */
  function Push<T>(l: DList<T>, v: T): DList<T>
  {
    var n := l.alloc;
    var node := NewNode(v);
    if l.size == 0 then
      DList(l.nodes[n := node], Some(n), Some(n), l.size + 1, n + 1)
    else if l.tail.Some? && l.tail.value in l.nodes then
      var t := l.tail.value;
      DList(l.nodes[t := SetNext(l.nodes[t], Some(n))][n := SetPrev(node, Some(t))], l.head, Some(n), l.size + 1, n + 1)
    else
      l.(size := l.size + 1, alloc := n + 1)
  }

  /** Appending a fresh node at the tail extends the chain by that node. */
  lemma AppendLinked<T>(l: DList<T>, ids: seq<Ref>, v: T)
    requires Linked(l, ids)
    ensures Linked(Push(l, v), ids + [l.alloc])
  {
    var r := l.alloc;
    var ids' := ids + [r];
    var l' := Push(l, v);
    assert forall i :: 0 <= i < |ids| ==> ids[i] < r;
    forall i | 0 <= i < |ids'|
      ensures ids'[i] in l'.nodes
    {
      if i < |ids| {
        assert ids'[i] == ids[i];
      }
    }
    forall i | 0 <= i < |ids'|
      ensures l'.nodes[ids'[i]].next == NextOf(ids', i) && l'.nodes[ids'[i]].prev == PrevOf(ids', i)
    {
      if i < |ids| {
        assert ids'[i] == ids[i];
        assert l.nodes[ids[i]].next == NextOf(ids, i);
        assert l.nodes[ids[i]].prev == PrevOf(ids, i);
      }
    }
  }

  /** Reading the values along a chain extended by one node holding `v`. */
  lemma ValuesAppend<T>(nodes: map<Ref, Node<T>>, nodes': map<Ref, Node<T>>, ids: seq<Ref>, r: Ref, v: T)
    requires forall i :: 0 <= i < |ids| ==> ids[i] in nodes
    requires forall x :: x in nodes ==> x in nodes' && nodes'[x].val == nodes[x].val
    requires r in nodes' && nodes'[r].val == v
    ensures forall i :: 0 <= i < |ids + [r]| ==> (ids + [r])[i] in nodes'
    ensures Values(nodes', ids + [r]) == Values(nodes, ids) + [v]
  {
    var ids' := ids + [r];
    assert forall i :: 0 <= i < |ids| ==> ids'[i] == ids[i];
    var c := Values(nodes, ids);
    var c' := Values(nodes', ids');
    forall i | 0 <= i < |ids|
      ensures c'[i] == c[i]
    {
      assert c'[i] == nodes'[ids[i]].val;
    }
  }

  /** Pushing onto a valid list appends `v` to the contents and grows the size by one. */
  lemma AddOneAppends<T>(l: DList<T>, v: T)
    ensures Valid(l) ==> Valid(Push(l, v)) && Contents(Push(l, v)) == Contents(l) + [v]
    ensures Valid(l) ==> Push(l, v).size == l.size + 1
  {
    if Valid(l) {
      var ids := Ids(l);
      var l' := Push(l, v);
      AppendLinked(l, ids, v);
      LinkedIsValid(l', ids + [l.alloc]);
      assert l.alloc !in l.nodes;
      ValuesAppend(l.nodes, l'.nodes, ids, l.alloc, v);
    }
  }

  /** One iteration of `add`: on a valid list, `v` is appended to the contents. */
  function AddOne<T>(l: DList<T>, v: T): (r: DList<T>)
    ensures Valid(l) ==> Valid(r) && Contents(r) == Contents(l) + [v] && r.size == l.size + 1
  {
    AddOneAppends(l, v);
    Push(l, v)
  }

  lemma AddStep<T>(r: DList<T>, p: seq<T>, values: seq<T>, i: nat)
    requires Valid(r) && i < |values| && Contents(r) == p + values[..i]
    ensures Valid(AddOne(r, values[i])) && Contents(AddOne(r, values[i])) == p + values[..i + 1]
  {
    assert values[..i + 1] == values[..i] + [values[i]];
  }

  /**
   * `add(...values)`: the values are appended in order, one node each, and the new size is
   * returned.
   */
  method Add<T>(l: DList<T>, values: seq<T>) returns (r: DList<T>, size: int)
    requires Valid(l)
    ensures Valid(r) && Contents(r) == Contents(l) + values
    ensures size == r.size == |Contents(l)| + |values|
  {
    ghost var p := Contents(l);
    r := l;
    for i := 0 to |values|
      invariant Valid(r) && Contents(r) == p + values[..i]
    {
      AddStep(r, p, values, i);
      r := AddOne(r, values[i]);
    }
    assert values[..|values|] == values;
    SizeIsLength(r);
    size := r.size;
  }

  /**
   * The first half of the unlinking in `remove`, for the matching node `c`: the head moves
   * past `c` (and the new head's `prev` is cleared), or else `c`'s predecessor is pointed at
   * `c`'s successor.
   */
  function DetachFront<T>(l: DList<T>, c: Ref): (f: DList<T>)
    requires c in l.nodes
    ensures f.nodes.Keys == l.nodes.Keys && f.tail == l.tail && f.size == l.size && f.alloc == l.alloc
    ensures f.head == if l.head == Some(c) then l.nodes[c].next else l.head
    ensures forall x :: x in l.nodes ==> f.nodes[x].val == l.nodes[x].val
    ensures forall x :: x in l.nodes && Some(x) != l.nodes[c].next && Some(x) != l.nodes[c].prev ==> f.nodes[x] == l.nodes[x]
  {
    if l.head == Some(c) then
      var h := GetNext(l.nodes[c]);
      l.(head := h, nodes := if h.Some? && h.value in l.nodes then l.nodes[h.value := SetPrev(l.nodes[h.value], None)] else l.nodes)
    else
      var p := GetPrev(l.nodes[c]);
      l.(nodes := if p.Some? && p.value in l.nodes then l.nodes[p.value := SetNext(l.nodes[p.value], GetNext(l.nodes[c]))] else l.nodes)
  }

  /**
   * The second half: the tail moves back past `c` (and the new tail's `next` is cleared), or
   * else `c`'s successor is pointed back at `c`'s predecessor.
   */
  function DetachBack<T>(l: DList<T>, c: Ref): (b: DList<T>)
    requires c in l.nodes
    ensures b.nodes.Keys == l.nodes.Keys && b.head == l.head && b.size == l.size && b.alloc == l.alloc
    ensures b.tail == if l.tail == Some(c) then l.nodes[c].prev else l.tail
    ensures forall x :: x in l.nodes ==> b.nodes[x].val == l.nodes[x].val
    ensures forall x :: x in l.nodes && Some(x) != l.nodes[c].next && Some(x) != l.nodes[c].prev ==> b.nodes[x] == l.nodes[x]
  {
    if l.tail == Some(c) then
      var t := GetPrev(l.nodes[c]);
      l.(tail := t, nodes := if t.Some? && t.value in l.nodes then l.nodes[t.value := SetNext(l.nodes[t.value], None)] else l.nodes)
    else
      var q := GetNext(l.nodes[c]);
      l.(nodes := if q.Some? && q.value in l.nodes then l.nodes[q.value := SetPrev(l.nodes[q.value], GetPrev(l.nodes[c]))] else l.nodes)
  }

  /**
   * `remove` of the node `c` found to match: both halves of the unlinking, and `size--`. Head
   * and tail move past `c` when it is at an end, only its neighbours' links change, and no
   * value changes. (That the result is the list without `c` is `UnlinkContents`.)
   */
  function Unlink<T>(l: DList<T>, c: Ref): (r: DList<T>)
    requires c in l.nodes
    ensures r.nodes.Keys == l.nodes.Keys && r.size == l.size - 1 && r.alloc == l.alloc
    ensures r.head == if l.head == Some(c) then l.nodes[c].next else l.head
    ensures l.tail != Some(c) ==> r.tail == l.tail
    ensures forall x :: x in l.nodes ==> r.nodes[x].val == l.nodes[x].val
    ensures l.nodes[c].next != Some(c) && l.nodes[c].prev != Some(c) ==>
      && (l.tail == Some(c) ==> r.tail == l.nodes[c].prev)
      && (forall x :: x in l.nodes && Some(x) != l.nodes[c].next && Some(x) != l.nodes[c].prev ==> r.nodes[x] == l.nodes[x])
  {
    var b := DetachBack(DetachFront(l, c), c);
    b.(size := b.size - 1)
  }

  /** `DetachFront` on a node whose links and head status are those of position `k` in `ids`. */
  lemma DetachFrontAt<T>(l: DList<T>, ids: seq<Ref>, k: nat)
    requires k < |ids| && ids[k] in l.nodes
    requires l.head == Some(ids[k]) <==> k == 0
    requires k == 0 ==> l.head == Some(ids[0])
    requires l.nodes[ids[k]].next == NextOf(ids, k) && l.nodes[ids[k]].prev == PrevOf(ids, k)
    ensures var f := DetachFront(l, ids[k]);
      && f.head == (if k == 0 then NextOf(ids, 0) else l.head)
      && forall r :: r in l.nodes ==>
        && f.nodes[r].val == l.nodes[r].val
        && f.nodes[r].next == (if 0 < k && r == ids[k - 1] then NextOf(ids, k) else l.nodes[r].next)
        && f.nodes[r].prev == (if k == 0 && 1 < |ids| && r == ids[1] then None else l.nodes[r].prev)
  {
  }

  lemma FrontFields<T>(l: DList<T>, ids: seq<Ref>, k: nat)
    requires Linked(l, ids) && k < |ids|
    ensures var f := DetachFront(l, ids[k]);
      && f.head == (if k == 0 then NextOf(ids, 0) else l.head)
      && forall r :: r in l.nodes ==>
        && f.nodes[r].val == l.nodes[r].val
        && f.nodes[r].next == (if 0 < k && r == ids[k - 1] then NextOf(ids, k) else l.nodes[r].next)
        && f.nodes[r].prev == (if k == 0 && 1 < |ids| && r == ids[1] then None else l.nodes[r].prev)
  {
    var c := ids[k];
    assert l.nodes[c].next == NextOf(ids, k) && l.nodes[c].prev == PrevOf(ids, k);
    if 0 < k {
      assert ids[0] != c;
    }
    DetachFrontAt(l, ids, k);
  }

  /** `DetachBack` on a node whose links and tail status are those of position `k` in `ids`. */
  lemma DetachBackAt<T>(f: DList<T>, ids: seq<Ref>, k: nat)
    requires k < |ids| && ids[k] in f.nodes
    requires f.tail == Some(ids[k]) <==> k == |ids| - 1
    requires f.nodes[ids[k]].next == NextOf(ids, k) && f.nodes[ids[k]].prev == PrevOf(ids, k)
    ensures var b := DetachBack(f, ids[k]);
      && b.tail == (if k == |ids| - 1 then PrevOf(ids, k) else f.tail)
      && forall r :: r in f.nodes ==>
        && b.nodes[r].val == f.nodes[r].val
        && b.nodes[r].next == (if k == |ids| - 1 && 0 < k && r == ids[k - 1] then None else f.nodes[r].next)
        && b.nodes[r].prev == (if k + 1 < |ids| && r == ids[k + 1] then PrevOf(ids, k) else f.nodes[r].prev)
  {
  }

  lemma BackFields<T>(l: DList<T>, ids: seq<Ref>, k: nat)
    requires Linked(l, ids) && k < |ids|
    ensures var f := DetachFront(l, ids[k]);
      var b := DetachBack(f, ids[k]);
      && b.tail == (if k == |ids| - 1 then PrevOf(ids, k) else l.tail)
      && forall r :: r in l.nodes ==>
        && b.nodes[r].val == f.nodes[r].val
        && b.nodes[r].next == (if k == |ids| - 1 && 0 < k && r == ids[k - 1] then None else f.nodes[r].next)
        && b.nodes[r].prev == (if k + 1 < |ids| && r == ids[k + 1] then PrevOf(ids, k) else f.nodes[r].prev)
  {
    var c := ids[k];
    FrontFields(l, ids, k);
    var f := DetachFront(l, c);
    assert l.nodes[c].next == NextOf(ids, k) && l.nodes[c].prev == PrevOf(ids, k);
    assert 0 < k ==> ids[k - 1] != c;
    assert k + 1 < |ids| ==> ids[k + 1] != c && ids[|ids| - 1] != c;
    assert f.nodes[c] == l.nodes[c];
    DetachBackAt(f, ids, k);
  }

  /** Chain `ids` without its element at `k`. */
  function Without(ids: seq<Ref>, k: nat): seq<Ref>
    requires k < |ids|
  {
    ids[..k] + ids[k + 1..]
  }

  /**
   * What unlinking the node at position `k` of a linked chain does to each node: only the
   * predecessor's `next` and the successor's `prev` change, to skip the node.
   */
  lemma UnlinkFields<T>(l: DList<T>, ids: seq<Ref>, k: nat)
    requires Linked(l, ids) && k < |ids|
    ensures var u := Unlink(l, ids[k]);
      && u.nodes.Keys == l.nodes.Keys && u.alloc == l.alloc && u.size == l.size - 1
      && u.head == (if k == 0 then NextOf(ids, 0) else l.head)
      && u.tail == (if k == |ids| - 1 then PrevOf(ids, k) else l.tail)
      && forall r :: r in l.nodes ==>
        && u.nodes[r].val == l.nodes[r].val
        && u.nodes[r].next == (if 0 < k && r == ids[k - 1] then NextOf(ids, k) else l.nodes[r].next)
        && u.nodes[r].prev == (if k + 1 < |ids| && r == ids[k + 1] then PrevOf(ids, k) else l.nodes[r].prev)
  {
    FrontFields(l, ids, k);
    BackFields(l, ids, k);
    if k + 1 < |ids| {
      assert 0 < k ==> ids[k + 1] != ids[k - 1];
    }
  }

  lemma WithoutDistinct(ids: seq<Ref>, k: nat)
    requires Distinct(ids) && k < |ids|
    ensures Distinct(Without(ids, k))
    ensures forall i :: 0 <= i < |Without(ids, k)| ==> Without(ids, k)[i] == if i < k then ids[i] else ids[i + 1]
  {
    var w := Without(ids, k);
    assert forall i :: 0 <= i < |w| ==> w[i] == if i < k then ids[i] else ids[i + 1];
  }

  lemma UnlinkNode<T>(l: DList<T>, ids: seq<Ref>, k: nat, r: Ref)
    requires Linked(l, ids) && k < |ids| && r in l.nodes
    ensures var u := Unlink(l, ids[k]);
      && r in u.nodes
      && u.nodes[r].val == l.nodes[r].val
      && u.nodes[r].next == (if 0 < k && r == ids[k - 1] then NextOf(ids, k) else l.nodes[r].next)
      && u.nodes[r].prev == (if k + 1 < |ids| && r == ids[k + 1] then PrevOf(ids, k) else l.nodes[r].prev)
  {
    UnlinkFields(l, ids, k);
  }

  /** After unlinking, each remaining node's links are its neighbours in the shortened chain. */
  lemma UnlinkLinks<T>(l: DList<T>, ids: seq<Ref>, k: nat, i: nat)
    requires Linked(l, ids) && k < |ids| && i < |ids| - 1
    ensures var u := Unlink(l, ids[k]); var w := Without(ids, k);
      && w[i] in u.nodes
      && u.nodes[w[i]].next == NextOf(w, i) && u.nodes[w[i]].prev == PrevOf(w, i)
      && u.nodes[w[i]].val == l.nodes[w[i]].val
  {
    var w := Without(ids, k);
    WithoutDistinct(ids, k);
    if i < k {
      assert w[i] == ids[i];
      UnlinkNode(l, ids, k, ids[i]);
      assert l.nodes[ids[i]].next == NextOf(ids, i) && l.nodes[ids[i]].prev == PrevOf(ids, i);
      assert k + 1 < |ids| ==> ids[i] != ids[k + 1];
      if i + 1 < k {
        assert ids[i] != ids[k - 1] && w[i + 1] == ids[i + 1];
      } else if k < |w| {
        assert w[k] == ids[k + 1];
      }
      if 0 < i {
        assert w[i - 1] == ids[i - 1];
      }
    } else {
      assert w[i] == ids[i + 1];
      UnlinkNode(l, ids, k, ids[i + 1]);
      assert l.nodes[ids[i + 1]].next == NextOf(ids, i + 1) && l.nodes[ids[i + 1]].prev == PrevOf(ids, i + 1);
      assert 0 < k ==> ids[i + 1] != ids[k - 1];
      if i + 1 < |w| {
        assert w[i + 1] == ids[i + 2];
      }
      if i == k {
        if 0 < k {
          assert w[k - 1] == ids[k - 1];
        }
      } else {
        assert ids[i + 1] != ids[k + 1] && w[i - 1] == ids[i];
      }
    }
  }

  /** Unlinking the node at position `k` leaves a linked list whose chain lacks that node. */
  lemma UnlinkLinked<T>(l: DList<T>, ids: seq<Ref>, k: nat)
    requires Linked(l, ids) && k < |ids|
    ensures Linked(Unlink(l, ids[k]), Without(ids, k))
    ensures forall r :: r in l.nodes ==> r in Unlink(l, ids[k]).nodes && Unlink(l, ids[k]).nodes[r].val == l.nodes[r].val
  {
    var u := Unlink(l, ids[k]);
    var w := Without(ids, k);
    UnlinkFields(l, ids, k);
    WithoutDistinct(ids, k);
    forall i | 0 <= i < |w|
      ensures w[i] in u.nodes
      ensures u.nodes[w[i]].next == NextOf(w, i) && u.nodes[w[i]].prev == PrevOf(w, i)
    {
      UnlinkLinks(l, ids, k, i);
    }
    assert u.head == First(w) && u.tail == Last(w);
  }

  /** Reading the values along `Without(ids, k)` skips exactly the value at position `k`. */
  lemma ValuesWithout<T>(nodes: map<Ref, Node<T>>, nodes': map<Ref, Node<T>>, ids: seq<Ref>, k: nat)
    requires k < |ids| && forall i :: 0 <= i < |ids| ==> ids[i] in nodes
    requires forall r :: r in nodes ==> r in nodes' && nodes'[r].val == nodes[r].val
    ensures forall i :: 0 <= i < |Without(ids, k)| ==> Without(ids, k)[i] in nodes'
    ensures Values(nodes', Without(ids, k)) == Values(nodes, ids)[..k] + Values(nodes, ids)[k + 1..]
  {
    var w := Without(ids, k);
    assert forall i :: 0 <= i < |w| ==> w[i] == if i < k then ids[i] else ids[i + 1];
    var c := Values(nodes, ids);
    var c' := Values(nodes', w);
    forall i | 0 <= i < |w|
      ensures c'[i] == (c[..k] + c[k + 1..])[i]
    {
      if i < k {
        assert c'[i] == nodes'[ids[i]].val;
      } else {
        assert c'[i] == nodes'[ids[i + 1]].val;
      }
    }
  }

  /** Unlinking the element at position `k` removes exactly that element from the contents. */
  lemma UnlinkContents<T>(l: DList<T>, k: nat)
    requires Valid(l) && k < |Ids(l)|
    ensures Valid(Unlink(l, Ids(l)[k]))
    ensures Contents(Unlink(l, Ids(l)[k])) == Contents(l)[..k] + Contents(l)[k + 1..]
    ensures Unlink(l, Ids(l)[k]).size == l.size - 1
  {
    var ids := Ids(l);
    var u := Unlink(l, ids[k]);
    UnlinkLinked(l, ids, k);
    LinkedIsValid(u, Without(ids, k));
    ValuesWithout(l.nodes, u.nodes, ids, k);
  }

  /** The position of the first element comparing equal to `value`, or -1 when there is none. */
  function FirstMatch<T>(s: seq<T>, compare: (T, T) -> int, value: T): (i: int)
    ensures -1 <= i < |s|
    ensures i == -1 <==> forall j :: 0 <= j < |s| ==> compare(s[j], value) != 0
    ensures 0 <= i ==> compare(s[i], value) == 0 && forall j :: 0 <= j < i ==> compare(s[j], value) != 0
  {
    if |s| == 0 then -1
    else if compare(s[0], value) == 0 then 0
    else
      var i := FirstMatch(s[1..], compare, value);
      if i == -1 then -1 else i + 1
  }

  /**
   * The search loop shared by `remove` and `contains`: follows `next` links from the head and
   * stops at the first node whose value compares equal to `value`, or runs off the tail.
   */
  method FindFirst<T>(nodes: map<Ref, Node<T>>, ghost ids: seq<Ref>, head: Option<Ref>, compare: (T, T) -> int, value: T)
    returns (cur: Option<Ref>, ghost k: int)
    requires Forward(nodes, ids) && head == First(ids)
    ensures k == FirstMatch(Values(nodes, ids), compare, value)
    ensures cur == if k < 0 then None else Some(ids[k])
  {
    ghost var c := Values(nodes, ids);
    cur := head;
    k := 0;
    while cur.Some?
      invariant 0 <= k <= |ids|
      invariant cur == (if k < |ids| then Some(ids[k]) else None)
      invariant forall j :: 0 <= j < k ==> compare(c[j], value) != 0
      decreases |ids| - k
    {
      assert nodes[ids[k]].next == NextOf(ids, k);
      var node := nodes[cur.value];
      assert Get(node) == c[k];
      if compare(Get(node), value) == 0 {
        return;
      }
      cur := GetNext(node);
      k := k + 1;
    }
    k := -1;
  }

  /**
   * What `remove(value)` does to the contents `c`: with no element comparing equal to `value`,
   * nothing is removed; otherwise the first such element is removed and returned.
   */
  ghost predicate RemovesFirst<T>(c: seq<T>, compare: (T, T) -> int, value: T, removed: Option<T>, c': seq<T>)
  {
    var k := FirstMatch(c, compare, value);
    if k < 0 then removed == None && c' == c
    else removed == Some(c[k]) && c' == c[..k] + c[k + 1..]
  }

  /**
   * `remove(value)`: the first element comparing equal to `value` is unlinked and returned and
   * the size drops by one; with no such element, null is returned and nothing changes.
   */
  method Remove<T>(l: DList<T>, compare: (T, T) -> int, value: T) returns (removed: Option<T>, r: DList<T>)
    requires Valid(l)
    ensures Valid(r) && RemovesFirst(Contents(l), compare, value, removed, Contents(r))
    ensures removed == None ==> r == l
    ensures removed != None ==> r.size == l.size - 1
  {
    if l.head.None? {
      return None, l;
    }
    ghost var ids := Ids(l);
    ghost var contents := Values(l.nodes, ids);
    var cur;
    ghost var k;
    cur, k := FindFirst(l.nodes, ids, l.head, compare, value);
    match cur
    case None =>
      return None, l;
    case Some(c) =>
      assert c == ids[k] && l.nodes[c].val == contents[k];
      UnlinkContents(l, k);
      return Some(Get(l.nodes[c])), Unlink(l, c);
  }

  /**
   * `add(v)` followed by `remove(v)` gives the contents back when no earlier element compares
   * equal to `v` and `v` compares equal to itself: the appended element is the one removed.
   */
  lemma AddThenRemove<T>(c: seq<T>, compare: (T, T) -> int, v: T)
    requires forall j :: 0 <= j < |c| ==> compare(c[j], v) != 0
    requires compare(v, v) == 0
    ensures RemovesFirst(c + [v], compare, v, Some(v), c)
  {
    assert (c + [v])[|c|] == v;
    assert (c + [v])[..|c|] == c;
  }

  /** `contains(value)`: whether some element compares equal to `value`. */
  method Contains<T>(l: DList<T>, compare: (T, T) -> int, value: T) returns (found: bool)
    requires Valid(l)
    ensures found <==> exists j :: 0 <= j < |Contents(l)| && compare(Contents(l)[j], value) == 0
  {
    if l.head.None? {
      return false;
    }
    var cur;
    ghost var k;
    cur, k := FindFirst(l.nodes, Ids(l), l.head, compare, value);
    if 0 <= k {
      assert compare(Contents(l)[k], value) == 0;
    }
    return cur.Some?;
  }

  /** `isEmpty()`: whether the head is null, which for a well-formed list means no contents. */
  function IsEmpty<T>(l: DList<T>): (b: bool)
    requires Valid(l)
    ensures b <==> Contents(l) == []
    ensures b <==> l.size == 0
    ensures b <==> l.tail == None
  {
    l.head == None
  }

  /** `size()`: the size counter, which is the number of elements. */
  function Size<T>(l: DList<T>): (n: int)
    requires Valid(l)
    ensures n == |Contents(l)|
  {
    l.size
  }

  /**
   * The index loop shared by `get` and `set`: follows `next` links `index` times from the
   * head, giving up with null should a link run out first (on a linked chain it never does).
   */
  method Walk<T>(nodes: map<Ref, Node<T>>, ghost ids: seq<Ref>, head: Option<Ref>, index: nat) returns (cur: Option<Ref>)
    requires Forward(nodes, ids) && head == First(ids) && index < |ids|
    ensures cur == Some(ids[index])
  {
    cur := head;
    var i := 0;
    while i < index
      invariant 0 <= i <= index && cur == Some(ids[i])
    {
      assert nodes[ids[i]].next == NextOf(ids, i);
      if cur.None? {
        return None;
      }
      cur := GetNext(nodes[cur.value]);
      i := i + 1;
    }
  }

  /** `get(index)`: the element at `index` when it lies in `[0, size)`, otherwise null. */
  method GetAt<T>(l: DList<T>, index: int) returns (v: Option<T>)
    requires Valid(l)
    ensures v == if 0 <= index < |Contents(l)| then Some(Contents(l)[index]) else None
  {
    if index < 0 || index >= l.size || l.head.None? {
      return None;
    }
    var cur := Walk(l.nodes, Ids(l), l.head, index);
    match cur
    case None =>
      return None;
    case Some(c) =>
      return Some(Get(l.nodes[c]));
  }

  /** Replaces the value held by node `c`, leaving every link as it was. */
  function Store<T>(l: DList<T>, c: Ref, v: T): (r: DList<T>)
    requires c in l.nodes
    ensures r.head == l.head && r.tail == l.tail && r.size == l.size && r.alloc == l.alloc
    ensures r.nodes.Keys == l.nodes.Keys && Get(r.nodes[c]) == v
    ensures forall x :: x in l.nodes ==> GetNext(r.nodes[x]) == GetNext(l.nodes[x]) && GetPrev(r.nodes[x]) == GetPrev(l.nodes[x])
    ensures forall x :: x in l.nodes && x != c ==> r.nodes[x] == l.nodes[x]
  {
    l.(nodes := l.nodes[c := Set(l.nodes[c], v)])
  }

  /** Storing a value into any node leaves every link, and so the chain, as it was. */
  lemma StoreLinked<T>(l: DList<T>, ids: seq<Ref>, c: Ref, v: T)
    requires Linked(l, ids) && c in l.nodes
    ensures Linked(Store(l, c, v), ids)
  {
    var s := Store(l, c, v);
    assert forall r :: r in l.nodes ==> r in s.nodes && s.nodes[r].next == l.nodes[r].next && s.nodes[r].prev == l.nodes[r].prev;
    assert Forward(s.nodes, ids);
  }

  /** Reading the values after storing `v` into the node at position `k` of a chain without repeats. */
  lemma ValuesStore<T>(nodes: map<Ref, Node<T>>, ids: seq<Ref>, k: nat, v: T)
    requires k < |ids| && Distinct(ids) && forall i :: 0 <= i < |ids| ==> ids[i] in nodes
    ensures Values(nodes[ids[k] := Set(nodes[ids[k]], v)], ids) == Values(nodes, ids)[k := v]
  {
    var nodes' := nodes[ids[k] := Set(nodes[ids[k]], v)];
    var c := Values(nodes, ids);
    var c' := Values(nodes', ids);
    forall i | 0 <= i < |ids|
      ensures c'[i] == c[k := v][i]
    {
      if i != k {
        assert ids[i] != ids[k];
      }
    }
  }

  /** Storing a value into the node at position `k` keeps the chain and changes only that element. */
  lemma StoreContents<T>(l: DList<T>, k: nat, v: T)
    requires Valid(l) && k < |Ids(l)|
    ensures Valid(Store(l, Ids(l)[k], v))
    ensures Contents(Store(l, Ids(l)[k], v)) == Contents(l)[k := v]
  {
    var ids := Ids(l);
    StoreLinked(l, ids, ids[k], v);
    LinkedIsValid(Store(l, ids[k], v), ids);
    ValuesStore(l.nodes, ids, k, v);
  }

  /**
   * `set(index, value)`: when `index` lies in `[0, size)` the element there becomes `value`
   * and true is returned; otherwise false is returned and nothing changes.
   */
  method SetAt<T>(l: DList<T>, index: int, value: T) returns (ok: bool, r: DList<T>)
    requires Valid(l)
    ensures Valid(r)
    ensures ok <==> 0 <= index < |Contents(l)|
    ensures ok ==> Contents(r) == Contents(l)[index := value] && r.size == l.size
    ensures !ok ==> r == l
  {
    if index < 0 || index >= l.size || l.head.None? {
      return false, l;
    }
    var cur := Walk(l.nodes, Ids(l), l.head, index);
    match cur
    case None =>
      return false, l;
    case Some(c) =>
      StoreContents(l, index, value);
      return true, Store(l, c, value);
  }

  /** The loop of `toArray` and of the iterator: the values met following `next` from the head. */
  method Collect<T>(nodes: map<Ref, Node<T>>, ghost ids: seq<Ref>, head: Option<Ref>) returns (a: seq<T>)
    requires Forward(nodes, ids) && head == First(ids)
    ensures a == Values(nodes, ids)
  {
    ghost var c := Values(nodes, ids);
    a := [];
    var cur := head;
    ghost var k := 0;
    while cur.Some?
      invariant 0 <= k <= |ids|
      invariant cur == (if k < |ids| then Some(ids[k]) else None)
      invariant a == c[..k]
      decreases |ids| - k
    {
      assert nodes[ids[k]].next == NextOf(ids, k);
      var node := nodes[cur.value];
      assert Get(node) == c[k];
      a := a + [Get(node)];
      cur := GetNext(node);
      k := k + 1;
    }
    assert c[..k] == c;
  }

  /** `toArray()` (and the iterator, which yields the same values in the same order). */
  method ToArray<T>(l: DList<T>) returns (a: seq<T>)
    requires Valid(l)
    ensures a == Contents(l)
  {
    if l.head.None? {
      return [];
    }
    a := Collect(l.nodes, Ids(l), l.head);
  }

  /** The loop of `clear`: every node met from the head has both links cut; values stay. */
  method CutLinks<T>(nodes: map<Ref, Node<T>>, ghost ids: seq<Ref>, head: Option<Ref>) returns (cut: map<Ref, Node<T>>)
    requires Forward(nodes, ids) && Distinct(ids) && head == First(ids)
    ensures cut.Keys == nodes.Keys
    ensures forall i :: 0 <= i < |ids| ==> cut[ids[i]].next == None && cut[ids[i]].prev == None
    ensures forall x :: x in nodes ==> cut[x].val == nodes[x].val
  {
    cut := nodes;
    var cur := head;
    ghost var k := 0;
    while cur.Some?
      invariant 0 <= k <= |ids|
      invariant cur == (if k < |ids| then Some(ids[k]) else None)
      invariant cut.Keys == nodes.Keys
      invariant forall i :: k <= i < |ids| ==> cut[ids[i]] == nodes[ids[i]]
      invariant forall i :: 0 <= i < k ==> cut[ids[i]].next == None && cut[ids[i]].prev == None
      invariant forall x :: x in cut ==> cut[x].val == nodes[x].val
      decreases |ids| - k
    {
      var c := cur.value;
      assert cut[c] == nodes[ids[k]];
      var next := GetNext(cut[c]);
      assert next == NextOf(ids, k);
      cut := cut[c := SetPrev(SetNext(cut[c], None), None)];
      cur := next;
      k := k + 1;
    }
  }

  /**
   * `clear()`: every node of the chain has both links cut, and the list is left empty. The
   * nodes stay in the arena, unreachable, with their values.
   */
  method Clear<T>(l: DList<T>) returns (r: DList<T>)
    requires Valid(l)
    ensures Valid(r) && Contents(r) == [] && r.size == 0
    ensures forall i :: 0 <= i < |Ids(l)| ==> Ids(l)[i] in r.nodes && r.nodes[Ids(l)[i]].next == None && r.nodes[Ids(l)[i]].prev == None
    ensures forall x :: x in l.nodes ==> x in r.nodes && r.nodes[x].val == l.nodes[x].val
  {
    var nodes := CutLinks(l.nodes, Ids(l), l.head);
    r := DList(nodes, None, None, 0, l.alloc);
    LinkedIsValid(r, []);
  }
}

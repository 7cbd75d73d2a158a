/**
 * A node of the doubly linked list: a value and optional links to the next and previous
 * node. Object references become handles into the list's arena of nodes.
 */
module ListNode {
  import opened Wrappers

  /** A handle naming a node in the list's arena. */
  type Ref = nat

  datatype Node<T> = Node(val: T, next: Option<Ref>, prev: Option<Ref>)

  /** `new Node(val)`: the value, and no links yet. */
  function NewNode<T>(val: T): (n: Node<T>)
    ensures Get(n) == val && GetNext(n) == None && GetPrev(n) == None
  {
    Node(val, None, None)
  }

  /** `get()`: the value held, the one that setting back changes nothing. */
  function Get<T>(n: Node<T>): (v: T)
    ensures Set(n, v) == n
  {
    n.val
  }

  /** `getNext()`: the next link, the one that setting back changes nothing. */
  function GetNext<T>(n: Node<T>): (next: Option<Ref>)
    ensures SetNext(n, next) == n
  {
    n.next
  }

  /** `getPrev()`: the previous link, the one that setting back changes nothing. */
  function GetPrev<T>(n: Node<T>): (prev: Option<Ref>)
    ensures SetPrev(n, prev) == n
  {
    n.prev
  }

  /** `set(val)`: the value is replaced and neither link is touched. */
  function Set<T>(n: Node<T>, val: T): (r: Node<T>)
    ensures r.val == val && r.next == n.next && r.prev == n.prev
  {
    n.(val := val)
  }

  /** `setNext(node)`: only the next link changes. */
  function SetNext<T>(n: Node<T>, next: Option<Ref>): (r: Node<T>)
    ensures r.next == next && r.val == n.val && r.prev == n.prev
  {
    n.(next := next)
  }

  /** `setPrev(node)`: only the previous link changes. */
  function SetPrev<T>(n: Node<T>, prev: Option<Ref>): (r: Node<T>)
    ensures r.prev == prev && r.val == n.val && r.next == n.next
  {
    n.(prev := prev)
  }
}

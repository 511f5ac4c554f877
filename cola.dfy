/**
 * cola.c: a FIFO queue of opaque elements kept as a singly-linked chain of nodes, with
 * pointers to the first node (the front) and the last node (the back).
 */
module Cola {

  import opened Options

  /** `nodo_t`: an element and the link to the node behind it. */
  class Node<T> {
    var data: T
    var next: Node?<T>

    /** crear_nodo (cola.c:18-25). */
    constructor (x: T)
      ensures data == x && next == null
    {
      data := x;
      next := null;
    }
  }

  /**
   * `cola_t`: `first` is `prim`, `last` is `ult`.  `nodes` lists the chain from the front,
   * and `Contents` the elements they hold.
   */
  class Queue<T> {
    var first: Node?<T>
    var last: Node?<T>
    ghost var nodes: seq<Node<T>>
    ghost var Contents: seq<T>

    ghost predicate Valid()
      reads this, nodes
    {
      && |nodes| == |Contents|
      && (forall i, j :: 0 <= i < j < |nodes| ==> nodes[i] != nodes[j])
      && (forall i :: 0 <= i < |nodes| ==> nodes[i].data == Contents[i])
      && (forall i :: 0 <= i < |nodes| - 1 ==> nodes[i].next == nodes[i + 1])
      && (if nodes == [] then first == null && last == null
          else first == nodes[0] && last == nodes[|nodes| - 1] && last.next == null)
    }

    /** cola_crear (cola.c:28-35). */
    constructor ()
      ensures Valid() && Contents == []
    {
      first := null;
      last := null;
      nodes := [];
      Contents := [];
    }

    /** cola_esta_vacia (cola.c:38-40): `prim` is NULL exactly when the queue holds nothing. */
    function IsEmpty(): (b: bool)
      requires Valid()
      reads this, nodes
      ensures b <==> Contents == []
      ensures b <==> last == null
    {
      first == null
    }

    /** cola_encolar (cola.c:43-53): `x` joins at the back, behind the old last node. */
    method Enqueue(x: T)
      requires Valid()
      modifies this, nodes
      ensures Valid() && Contents == old(Contents) + [x]
      ensures fresh((set n | n in nodes) - (set n | n in old(nodes)))
    {
      var node := new Node(x);
      if last != null {
        last.next := node;
      } else {
        first := node;
      }
      last := node;
      nodes := nodes + [node];
      Contents := Contents + [x];
    }

    /** cola_ver_primero (cola.c:56-59): the front element, or nothing when empty. */
    method Peek() returns (r: Option<T>)
      requires Valid()
      ensures r == if Contents == [] then None else Some(Contents[0])
    {
      if first == null {
        return None;
      }
      return Some(first.data);
    }

    /**
     * cola_desencolar (cola.c:62-72): nothing when empty; otherwise the front element leaves,
     * and `ult` is cleared when the queue becomes empty.
     */
    method Dequeue() returns (r: Option<T>)
      requires Valid()
      modifies this
      ensures Valid()
      ensures old(Contents) == [] ==> r.None? && Contents == []
      ensures old(Contents) != [] ==> r == Some(old(Contents)[0]) && Contents == old(Contents)[1..]
    {
      if first == null {
        return None;
      }
      var front := first.data;
      first := first.next;
      if first == null {
        last := null;
      }
      nodes := nodes[1..];
      Contents := Contents[1..];
      return Some(front);
    }
  }
}

/**
 * lista.c: a singly-linked list of opaque elements with pointers to its first and last
 * nodes and a length counter, an external iterator that can insert and delete at its
 * cursor, and an internal iterator driven by a visit callback.
 */
module Lista {

  import opened Options

  /** `nodo_t`: an element and the link to the next node. */
  class Node<T> {
    var data: T
    var next: Node?<T>

    /** crear_nodo (lista.c:12-19). */
    constructor (x: T, next: Node?<T>)
      ensures data == x && this.next == next
    {
      data := x;
      this.next := next;
    }
  }

  /**
   * `lista_t`: `first` is `prim`, `last` is `ult`, `length` is `largo`.  `nodes` lists the
   * chain from the front and `Contents` the elements they hold.
   */
  class List<T> {
    var first: Node?<T>
    var last: Node?<T>
    var length: nat
    ghost var nodes: seq<Node<T>>
    ghost var Contents: seq<T>

    ghost predicate Valid()
      reads this, nodes
    {
      && |nodes| == |Contents| == length
      && (forall i, j :: 0 <= i < j < |nodes| ==> nodes[i] != nodes[j])
      && (forall i :: 0 <= i < |nodes| ==> nodes[i].data == Contents[i])
      && (forall i :: 0 <= i < |nodes| - 1 ==> nodes[i].next == nodes[i + 1])
      && (if nodes == [] then first == null && last == null
          else first == nodes[0] && last == nodes[|nodes| - 1] && last.next == null)
    }

    /** lista_crear (lista.c:36-44). */
    constructor ()
      ensures Valid() && Contents == []
    {
      first := null;
      last := null;
      length := 0;
      nodes := [];
      Contents := [];
    }

    /** lista_esta_vacia (lista.c:47-49). */
    function IsEmpty(): (b: bool)
      requires Valid()
      reads this, nodes
      ensures b <==> Contents == []
    {
      first == null
    }

    /** lista_largo (lista.c:106-108). */
    function Length(): (n: nat)
      requires Valid()
      reads this, nodes
      ensures n == |Contents|
    {
      length
    }

    /** lista_insertar_primero (lista.c:52-64): `x` goes in front; `ult` is set when the list was empty. */
    method InsertFirst(x: T)
      requires Valid()
      modifies this
      ensures Valid() && Contents == [x] + old(Contents)
      ensures old(Contents) != [] ==> last == old(last)
      ensures fresh((set n | n in nodes) - (set n | n in old(nodes)))
    {
      var node := new Node(x, first);
      first := node;
      length := length + 1;
      if last == null {
        last := node;
      }
      nodes := [node] + nodes;
      Contents := [x] + Contents;
    }

    /** lista_insertar_ultimo (lista.c:67-77): `x` goes at the back, behind the old last node. */
    method InsertLast(x: T)
      requires Valid()
      modifies this, nodes
      ensures Valid() && Contents == old(Contents) + [x]
      ensures old(Contents) != [] ==> first == old(first)
      ensures fresh((set n | n in nodes) - (set n | n in old(nodes)))
    {
      var node := new Node(x, null);
      if last != null {
        last.next := node;
      } else {
        first := node;
      }
      last := node;
      length := length + 1;
      nodes := nodes + [node];
      Contents := Contents + [x];
    }

    /**
     * lista_borrar_primero (lista.c:80-91): nothing on an empty list; otherwise the first
     * element leaves, and `ult` is cleared when the list becomes empty.
     */
    method RemoveFirst() returns (r: Option<T>)
      requires Valid()
      modifies this
      ensures Valid()
      ensures old(Contents) == [] ==> r.None? && Contents == []
      ensures old(Contents) != [] ==> r == Some(old(Contents)[0]) && Contents == old(Contents)[1..]
    {
      if first == null {
        return None;
      }
      var x := first.data;
      first := first.next;
      if first == null {
        last := null;
      }
      length := length - 1;
      nodes := nodes[1..];
      Contents := Contents[1..];
      return Some(x);
    }

    /** lista_ver_primero (lista.c:94-97). */
    method PeekFirst() returns (r: Option<T>)
      requires Valid()
      ensures r == if Contents == [] then None else Some(Contents[0])
    {
      if first == null {
        return None;
      }
      return Some(first.data);
    }

    /** lista_ver_ultimo (lista.c:100-103). */
    method PeekLast() returns (r: Option<T>)
      requires Valid()
      ensures r == if Contents == [] then None else Some(Contents[|Contents| - 1])
    {
      if last == null {
        return None;
      }
      return Some(last.data);
    }

    /**
     * The relinking of lista_iter_insertar (lista.c:155-171): a node holding `x` goes between
     * `previous` and `current`, the nodes at positions `k - 1` and `k`.
     */
    method Link(previous: Node?<T>, current: Node?<T>, x: T, ghost k: nat) returns (node: Node<T>)
      requires Valid() && k <= |nodes|
      requires current == (if k < |nodes| then nodes[k] else null)
      requires previous == (if k == 0 then null else nodes[k - 1])
      modifies this, nodes
      ensures Valid() && fresh(node) && nodes == old(nodes)[..k] + [node] + old(nodes)[k..]
      ensures Contents == old(Contents)[..k] + [x] + old(Contents)[k..]
    {
      ghost var ns := nodes;
      ghost var cs := Contents;
      node := new Node(x, current);
      if previous != null {
        previous.next := node;
      } else {
        first := node;
      }
      if current == null {
        last := node;
      }
      length := length + 1;
      nodes := ns[..k] + [node] + ns[k..];
      Contents := cs[..k] + [x] + cs[k..];
      forall i | 0 <= i < |nodes|
        ensures nodes[i].data == Contents[i]
        ensures i < |nodes| - 1 ==> nodes[i].next == nodes[i + 1]
      {
        if i < k {
          assert nodes[i] == ns[i];
        } else if i > k {
          assert nodes[i] == ns[i - 1];
        }
      }
    }

    /**
     * The relinking of lista_iter_borrar (lista.c:179-193): the node `current` at position `k`
     * leaves the chain; the result is its successor.
     */
    method Unlink(previous: Node?<T>, current: Node<T>, ghost k: nat) returns (next: Node?<T>)
      requires Valid() && k < |nodes| && current == nodes[k]
      requires previous == (if k == 0 then null else nodes[k - 1])
      modifies this, nodes
      ensures Valid() && nodes == old(nodes)[..k] + old(nodes)[k + 1..]
      ensures Contents == old(Contents)[..k] + old(Contents)[k + 1..]
      ensures next == if k < |nodes| then nodes[k] else null
    {
      ghost var ns := nodes;
      ghost var cs := Contents;
      ghost var succ: Node?<T> := if k + 1 < |ns| then ns[k + 1] else null;
      assert current.next == succ;
      if previous != null {
        previous.next := current.next;
      } else {
        first := first.next;
      }
      if current.next == null {
        last := previous;
      }
      next := current.next;
      length := length - 1;
      nodes := ns[..k] + ns[k + 1..];
      Contents := cs[..k] + cs[k + 1..];
      forall i | 0 <= i < |nodes|
        ensures nodes[i].data == Contents[i]
        ensures i < |nodes| - 1 ==> nodes[i].next == nodes[i + 1]
      {
        if i < k {
          assert nodes[i] == ns[i];
        } else {
          assert nodes[i] == ns[i + 1];
        }
      }
      assert last == (if k + 1 < |ns| then ns[|ns| - 1] else previous);
    }

    /**
     * lista_iterar (lista.c:205-210): `visit` is called on the elements from the front and
     * the walk stops after the first call that answers false.  `calls` is how many calls were made:
     * every call before the last answered true, and the walk ended early only on a false answer.
     */
    method Iterate(visit: T -> bool) returns (calls: nat)
      requires Valid()
      ensures calls <= |Contents|
      ensures forall i :: 0 <= i < calls - 1 ==> visit(Contents[i])
      ensures calls < |Contents| ==> calls > 0 && !visit(Contents[calls - 1])
      ensures Contents != [] ==> calls > 0
    {
      var current := first;
      calls := 0;
      var going := true;
      while current != null && going
        invariant calls <= |nodes|
        invariant current == if calls < |nodes| then nodes[calls] else null
        invariant going ==> forall i :: 0 <= i < calls ==> visit(Contents[i])
        invariant !going ==> 0 < calls && (forall i :: 0 <= i < calls - 1 ==> visit(Contents[i])) && !visit(Contents[calls - 1])
        decreases |nodes| - calls, going
      {
        going := visit(current.data);
        current := current.next;
        calls := calls + 1;
      }
    }
  }

  /**
   * `lista_iter_t`: `current` is `actual`, `previous` is `anterior`.  The cursor stands at
   * `index` in the list: `current` is the node there (null past the end) and `previous`
   * the node before it (null at the front).
   */
  class ListIterator<T> {
    const list: List<T>
    var current: Node?<T>
    var previous: Node?<T>
    ghost var index: nat

    ghost predicate Valid()
      reads this, list, list.nodes
    {
      && list.Valid()
      && index <= |list.nodes|
      && current == (if index < |list.nodes| then list.nodes[index] else null)
      && previous == (if index == 0 then null else list.nodes[index - 1])
    }

    /** lista_iter_crear (lista.c:124-132): the cursor starts at the first element. */
    constructor (l: List<T>)
      requires l.Valid()
      ensures Valid() && list == l && index == 0
    {
      list := l;
      current := l.first;
      previous := null;
      index := 0;
    }

    /** lista_iter_al_final (lista.c:149-151). */
    function AtEnd(): (b: bool)
      requires Valid()
      reads this, list, list.nodes
      ensures b <==> index == |list.Contents|
    {
      current == null
    }

    /** lista_iter_ver_actual (lista.c:143-146): the element under the cursor, nothing at the end. */
    method Current() returns (r: Option<T>)
      requires Valid()
      ensures r == if index < |list.Contents| then Some(list.Contents[index]) else None
    {
      if current == null {
        return None;
      }
      return Some(current.data);
    }

    /** lista_iter_avanzar (lista.c:135-140): false, and no move, only at the end. */
    method Advance() returns (moved: bool)
      requires Valid()
      modifies this
      ensures Valid()
      ensures moved <==> old(index) < |list.Contents|
      ensures index == if moved then old(index) + 1 else old(index)
    {
      if current == null {
        return false;
      }
      previous := current;
      current := current.next;
      index := index + 1;
      return true;
    }

    /**
     * lista_iter_insertar (lista.c:154-173): `x` goes in just before the cursor and becomes
     * the element under it; `prim` changes when inserting at the front and `ult` at the end.
     */
    method Insert(x: T)
      requires Valid()
      modifies this, list, list.nodes
      ensures Valid() && index == old(index)
      ensures list.Contents == old(list.Contents)[..index] + [x] + old(list.Contents)[index..]
      ensures fresh((set n | n in list.nodes) - (set n | n in old(list.nodes)))
    {
      current := list.Link(previous, current, x, index);
    }

    /**
     * lista_iter_borrar (lista.c:176-196): nothing at the end; otherwise the element under the
     * cursor leaves and its successor takes its place, and `ult` falls back to `anterior`
     * when the last element goes.
     */
    method Remove() returns (r: Option<T>)
      requires Valid()
      modifies this, list, list.nodes
      ensures Valid() && index == old(index)
      ensures old(index) == |old(list.Contents)| ==> r.None? && list.Contents == old(list.Contents)
      ensures old(index) < |old(list.Contents)| ==>
        && r == Some(old(list.Contents)[index])
        && list.Contents == old(list.Contents)[..index] + old(list.Contents)[index + 1..]
    {
      if current == null {
        return None;
      }
      var x := current.data;
      current := list.Unlink(previous, current, index);
      return Some(x);
    }
  }
}

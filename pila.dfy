/**
 * pila.c: a LIFO stack of opaque elements kept in a growable array.  The array doubles when
 * a push finds it full and halves when a pop leaves it at most a quarter full.
 */
module Pila {

  import opened Options

  const ResizeFactor: nat := 2       // FACTOR_REDIMENSION
  const InitialValue: nat := 2       // VALOR_INICIAL
  const InitialCapacity: nat := 10   // TAMANO_INICIAL

  /** The capacity pila_apilar moves to when the array is full (pila.c:54-55). */
  function Grown(capacity: nat): (c: nat)
    requires capacity >= InitialCapacity
    ensures c > capacity && c >= InitialCapacity
  {
    capacity * ResizeFactor
  }

  /** The shrink condition of pila_desapilar, tested after the element left (pila.c:74). */
  predicate ShrinkDue(count: nat, capacity: nat)
  {
    count > InitialCapacity && InitialValue * InitialValue * count <= capacity
  }

  /**
   * The capacity pila_desapilar shrinks to (pila.c:75).  When the shrink is due the halved
   * array still holds twice the elements and never falls below TAMANO_INICIAL.
   */
  function Shrunk(count: nat, capacity: nat): (c: nat)
    requires ShrinkDue(count, capacity)
    ensures c >= 2 * count && c > InitialCapacity && c < capacity
  {
    capacity / ResizeFactor
  }

  /**
   * `pila_t`: `data` is `datos` (its length is `capacidad`), `count` is `cantidad`.
   * `Contents` lists the elements from the bottom of the stack to its top.
   */
  class Stack<T(0)> {
    var data: array<T>
    var count: nat
    ghost var Contents: seq<T>

    ghost predicate Valid()
      reads this, data
    {
      && InitialCapacity <= data.Length
      && count <= data.Length
      && Contents == data[..count]
    }

    /** pila_crear (pila.c:16-29): empty, with TAMANO_INICIAL slots. */
    constructor ()
      ensures Valid() && fresh(data)
      ensures Contents == [] && data.Length == InitialCapacity
    {
      data := new T[InitialCapacity];
      count := 0;
      Contents := [];
    }

    /** pila_esta_vacia (pila.c:48-50). */
    function IsEmpty(): (b: bool)
      requires Valid()
      reads this, data
      ensures b <==> Contents == []
    {
      count == 0
    }

    /** redimensionar_pila (pila.c:38-45): `realloc` keeps the elements and changes the capacity. */
    method Resize(newCapacity: nat)
      requires Valid() && count <= newCapacity && InitialCapacity <= newCapacity
      modifies this
      ensures Valid() && fresh(data) && data.Length == newCapacity
      ensures count == old(count) && Contents == old(Contents)
    {
      var newData := new T[newCapacity];
      forall i | 0 <= i < count {
        newData[i] := data[i];
      }
      assert newData[..count] == Contents;
      data := newData;
    }

    /** The growth step of pila_apilar (pila.c:54-56). */
    method MakeRoom()
      requires Valid()
      modifies this
      ensures Valid() && count < data.Length
      ensures count == old(count) && Contents == old(Contents)
      ensures data.Length == if old(count) == old(data.Length) then Grown(old(data.Length)) else old(data.Length)
      ensures data == old(data) || fresh(data)
    {
      if count == data.Length {
        Resize(Grown(data.Length));
      }
    }

    /** pila_apilar (pila.c:53-61): `x` becomes the top; a full array doubles first. */
    method Push(x: T)
      requires Valid()
      modifies this, data
      ensures Valid() && Contents == old(Contents) + [x]
      ensures data == old(data) || fresh(data)
      ensures data.Length == if |old(Contents)| == old(data.Length) then Grown(old(data.Length)) else old(data.Length)
    {
      MakeRoom();
      data[count] := x;
      count := count + 1;
      Contents := Contents + [x];
      assert Contents == data[..count];
    }

    /** pila_ver_tope (pila.c:64-67): the most recently pushed element still present. */
    method Peek() returns (r: Option<T>)
      requires Valid()
      ensures r == if Contents == [] then None else Some(Contents[|Contents| - 1])
    {
      if count == 0 {
        return None;
      }
      return Some(data[count - 1]);
    }

    /**
     * pila_desapilar (pila.c:70-78): nothing on an empty stack; otherwise the top leaves, and
     * the array halves when the remaining count exceeds TAMANO_INICIAL and fills at most a quarter of it.
     */
    method Pop() returns (r: Option<T>)
      requires Valid()
      modifies this
      ensures Valid() && (data == old(data) || fresh(data))
      ensures old(Contents) == [] ==> r.None? && Contents == [] && data == old(data)
      ensures old(Contents) != [] ==>
        && r == Some(old(Contents)[|old(Contents)| - 1])
        && Contents == old(Contents)[..|old(Contents)| - 1]
        && data.Length == if ShrinkDue(|Contents|, old(data.Length)) then Shrunk(|Contents|, old(data.Length)) else old(data.Length)
    {
      if count == 0 {
        return None;
      }
      count := count - 1;
      var top := data[count];
      Contents := Contents[..count];
      if ShrinkDue(count, data.Length) {
        Resize(Shrunk(count, data.Length));
      }
      return Some(top);
    }
  }
}

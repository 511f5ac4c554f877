/**
 * heap.c: a binary max-heap of opaque elements stored in a growable array, ordered by a
 * caller-supplied comparison, plus the in-place `heapify` and `heap_sort` on a plain array.
 *
 * The children of index `i` are `2i+1` and `2i+2`; its parent is `(i-1)/2`.  The heap
 * property holds when no element compares greater than its parent.
 */
module Heap {

  import opened Options
  import opened Orders

  const ResizeFactor: nat := 4   // FACTOR_REDIMENSION
  const MinCapacity: nat := 10   // CAPACIDAD_MINIMA

  function Parent(i: nat): nat
    requires i > 0
  {
    (i - 1) / 2
  }

  /** The heap property on `s[..n]` for every element whose parent sits at index `r` or above. */
  ghost predicate HeapFrom<T>(s: seq<T>, n: nat, r: nat, cmp: (T, T) -> int)
    requires n <= |s|
  {
    forall i :: 0 < i < n && Parent(i) >= r ==> cmp(s[Parent(i)], s[i]) >= 0
  }

  ghost predicate IsHeap<T>(s: seq<T>, n: nat, cmp: (T, T) -> int)
    requires n <= |s|
  {
    HeapFrom(s, n, 0, cmp)
  }

  /** The property on the region from `r`, except between `p` and its children. */
  ghost predicate HeapExcept<T>(s: seq<T>, n: nat, r: nat, p: nat, cmp: (T, T) -> int)
    requires n <= |s|
  {
    forall i :: 0 < i < n && Parent(i) >= r && Parent(i) != p ==> cmp(s[Parent(i)], s[i]) >= 0
  }

  /** The parent of `p`, when inside the region, also dominates `p`'s children. */
  ghost predicate Bridge<T>(s: seq<T>, n: nat, r: nat, p: nat, cmp: (T, T) -> int)
    requires n <= |s|
  {
    p > 0 && Parent(p) >= r ==>
      forall i :: 0 < i < n && Parent(i) == p ==> cmp(s[Parent(p)], s[i]) >= 0
  }

  /** The heap property of `s[..n]` depends on nothing past `n`. */
  lemma SamePrefix<T>(s: seq<T>, t: seq<T>, n: nat, cmp: (T, T) -> int)
    requires n <= |s| && n <= |t| && s[..n] == t[..n] && IsHeap(s, n, cmp)
    ensures IsHeap(t, n, cmp)
  {
    forall i | 0 < i < n ensures cmp(t[Parent(i)], t[i]) >= 0 {
      assert t[i] == s[..n][i] && t[Parent(i)] == s[..n][Parent(i)];
    }
  }

  /** swap (heap.c:55-59). */
  method Swap<T>(a: array<T>, i: nat, j: nat)
    requires i < a.Length && j < a.Length
    modifies a
    ensures a[..] == old(a[..])[i := old(a[j])][j := old(a[i])]
  {
    var t := a[i];
    a[i] := a[j];
    a[j] := t;
  }

  /** Swapping two positions below `n` permutes `a[..n]` and leaves the rest alone. */
  lemma SwapPermutes<T>(s: seq<T>, t: seq<T>, i: nat, j: nat, n: nat)
    requires i < n && j < n && n <= |s|
    requires t == s[i := s[j]][j := s[i]]
    ensures multiset(t[..n]) == multiset(s[..n]) && t[n..] == s[n..]
  {
    assert t[..n] == s[..n][i := s[j]][j := s[i]];
  }

  /** The heap property on `s[..n]` except between `c` and its parent. */
  ghost predicate HeapBut<T>(s: seq<T>, n: nat, c: nat, cmp: (T, T) -> int)
    requires n <= |s|
  {
    forall i :: 0 < i < n && i != c ==> cmp(s[Parent(i)], s[i]) >= 0
  }

  /** The parent of `c` dominates `c`'s children. */
  ghost predicate Lift<T>(s: seq<T>, n: nat, c: nat, cmp: (T, T) -> int)
    requires n <= |s|
  {
    c > 0 ==> forall i :: 0 < i < n && Parent(i) == c ==> cmp(s[Parent(c)], s[i]) >= 0
  }

  /**
   * upheap (heap.c:70-79): the element at `c` rises while it compares greater than its parent.
   * Everything in `a[..n]` is in heap order except possibly `c` against its parent.
   */
  method Upheap<T(!new)>(a: array<T>, c: nat, cmp: (T, T) -> int, ghost n: nat)
    requires Preorder(cmp) && c < n <= a.Length
    requires HeapBut(a[..], n, c, cmp) && Lift(a[..], n, c, cmp)
    modifies a
    ensures IsHeap(a[..], n, cmp)
    ensures multiset(a[..n]) == multiset(old(a[..n])) && a[n..] == old(a[n..])
    decreases c
  {
    if c == 0 {
      return;
    }
    var p := (c - 1) / 2;
    ghost var s := a[..];
    if cmp(a[p], a[c]) < 0 {
      RiseStep(s, n, c, cmp);
      Swap(a, p, c);
      SwapPermutes(s, a[..], p, c, n);
      Upheap(a, p, cmp, n);
    } else {
      assert IsHeap(s, n, cmp);
    }
  }

  /** One step of upheap: swapping `c` with its smaller parent moves the only defect up to the parent. */
  lemma RiseStep<T(!new)>(s: seq<T>, n: nat, c: nat, cmp: (T, T) -> int)
    requires Preorder(cmp) && 0 < c < n <= |s|
    requires HeapBut(s, n, c, cmp) && Lift(s, n, c, cmp)
    requires cmp(s[Parent(c)], s[c]) < 0
    ensures HeapBut(s[Parent(c) := s[c]][c := s[Parent(c)]], n, Parent(c), cmp)
    ensures Lift(s[Parent(c) := s[c]][c := s[Parent(c)]], n, Parent(c), cmp)
  {
    var p := Parent(c);
    var t := s[p := s[c]][c := s[p]];
    forall i | 0 < i < n && i != p ensures cmp(t[Parent(i)], t[i]) >= 0 {
      if i == c {
      } else if Parent(i) == c {
        assert t[i] == s[i];
      } else if Parent(i) == p {
        assert t[i] == s[i];
        Transitive(cmp, s[c], s[p], s[i]);
      } else {
        assert t[i] == s[i] && t[Parent(i)] == s[Parent(i)];
      }
    }
    if p > 0 {
      forall i | 0 < i < n && Parent(i) == p ensures cmp(t[Parent(p)], t[i]) >= 0 {
        assert t[Parent(p)] == s[Parent(p)];
        if i != c {
          assert t[i] == s[i];
          Transitive(cmp, s[Parent(p)], s[p], s[i]);
        }
      }
    }
  }

  /**
   * downheap (heap.c:91-109): the element at `p` sinks below its greater child until no child
   * compares greater.  `n` is the number of elements (the C parameter `capacidad`); for
   * exactly two elements the code only orders the pair.  The ghost `r` names the region whose
   * heap order is restored: every element whose parent lies at index `r` or above.
   */
  method Downheap<T(!new)>(a: array<T>, n: nat, p: nat, cmp: (T, T) -> int, ghost r: nat)
    requires Preorder(cmp) && r <= p <= n <= a.Length
    requires HeapExcept(a[..], n, r, p, cmp) && Bridge(a[..], n, r, p, cmp)
    modifies a
    ensures HeapFrom(a[..], n, r, cmp)
    ensures multiset(a[..n]) == multiset(old(a[..n])) && a[n..] == old(a[n..])
    decreases n - p
  {
    if n == 2 && cmp(a[0], a[1]) < 0 {
      ghost var s := a[..];
      Swap(a, 0, 1);
      SwapPermutes(s, a[..], 0, 1, n);
      return;
    }
    if p == n {
      return;
    }
    var left := 2 * p + 1;
    var right := 2 * p + 2;
    var max := p;
    if left < n && cmp(a[left], a[max]) > 0 {
      max := left;
    }
    if right < n && cmp(a[right], a[max]) > 0 {
      max := right;
    }
    ghost var s := a[..];
    if max == right && left < n {
      if cmp(s[left], s[p]) > 0 {
        Transitive(cmp, s[right], s[left], s[p]);
      } else {
        Transitive(cmp, s[right], s[p], s[left]);
      }
    }
    assert cmp(s[max], s[p]) >= 0;
    assert left < n ==> cmp(s[max], s[left]) >= 0;
    assert right < n ==> cmp(s[max], s[right]) >= 0;
    if max != p {
      SinkStep(s, n, r, p, max, cmp);
      Swap(a, max, p);
      SwapPermutes(s, a[..], max, p, n);
      Downheap(a, n, max, cmp, r);
    } else {
      SinkDone(s, n, r, p, cmp);
    }
  }

  /** The children of `p` are exactly `2p+1` and `2p+2`. */
  lemma ChildrenOf(i: nat, p: nat)
    requires i > 0
    ensures Parent(i) == p <==> i == 2 * p + 1 || i == 2 * p + 2
  {
  }

  /**
   * One step of downheap: swapping `p` with its greatest child `m` fixes the order between `p`
   * and its children and moves the only possible defect down to `m`.
   */
  lemma SinkStep<T(!new)>(s: seq<T>, n: nat, r: nat, p: nat, m: nat, cmp: (T, T) -> int)
    requires Preorder(cmp) && r <= p < m < n <= |s| && (m == 2 * p + 1 || m == 2 * p + 2)
    requires HeapExcept(s, n, r, p, cmp) && Bridge(s, n, r, p, cmp)
    requires cmp(s[m], s[p]) >= 0
    requires 2 * p + 1 < n ==> cmp(s[m], s[2 * p + 1]) >= 0
    requires 2 * p + 2 < n ==> cmp(s[m], s[2 * p + 2]) >= 0
    ensures HeapExcept(s[m := s[p]][p := s[m]], n, r, m, cmp)
    ensures Bridge(s[m := s[p]][p := s[m]], n, r, m, cmp)
  {
    var t := s[m := s[p]][p := s[m]];
    ChildrenOf(m, p);
    forall i | 0 < i < n && Parent(i) >= r && Parent(i) != m
      ensures cmp(t[Parent(i)], t[i]) >= 0
    {
      ChildrenOf(i, p);
      if Parent(i) == p {
        if i != m {
          assert t[i] == s[i];
        }
      } else if i == p {
        assert t[Parent(i)] == s[Parent(p)];
      } else {
        assert i != m && i != p;
        assert Parent(i) != p && Parent(i) != m;
        assert t[i] == s[i] && t[Parent(i)] == s[Parent(i)];
      }
    }
    forall i | 0 < i < n && Parent(i) == m ensures cmp(t[Parent(m)], t[i]) >= 0 {
      assert i != p && i != m;
      assert t[i] == s[i];
      assert cmp(s[m], s[i]) >= 0;
    }
  }

  /** When no child of `p` compares greater than `p`, the whole region is in heap order. */
  lemma SinkDone<T(!new)>(s: seq<T>, n: nat, r: nat, p: nat, cmp: (T, T) -> int)
    requires Preorder(cmp) && r <= p < n <= |s|
    requires HeapExcept(s, n, r, p, cmp)
    requires 2 * p + 1 < n ==> cmp(s[p], s[2 * p + 1]) >= 0
    requires 2 * p + 2 < n ==> cmp(s[p], s[2 * p + 2]) >= 0
    ensures HeapFrom(s, n, r, cmp)
  {
    forall i | 0 < i < n && Parent(i) >= r ensures cmp(s[Parent(i)], s[i]) >= 0 {
      ChildrenOf(i, p);
    }
  }

  /** Every element of a heap compares at most equal to the root. */
  lemma {:induction false} RootIsMax<T(!new)>(s: seq<T>, n: nat, cmp: (T, T) -> int, i: nat)
    requires Preorder(cmp) && i < n <= |s| && IsHeap(s, n, cmp)
    ensures cmp(s[0], s[i]) >= 0
    decreases i
  {
    if i > 0 {
      RootIsMax(s, n, cmp, Parent(i));
      Transitive(cmp, s[0], s[Parent(i)], s[i]);
    }
  }

  /** `x` is one of the elements of `m` and compares at least equal to each of them. */
  ghost predicate IsMax<T>(x: T, m: multiset<T>, cmp: (T, T) -> int)
  {
    x in m && forall y :: y in m ==> cmp(x, y) >= 0
  }

  /** The root of a heap is a maximum of the elements it holds. */
  lemma RootDominates<T(!new)>(s: seq<T>, n: nat, cmp: (T, T) -> int)
    requires Preorder(cmp) && 0 < n <= |s| && IsHeap(s, n, cmp)
    ensures IsMax(s[0], multiset(s[..n]), cmp)
  {
    forall x | x in multiset(s[..n]) ensures cmp(s[0], x) >= 0 {
      var i :| 0 <= i < n && s[..n][i] == x;
      RootIsMax(s, n, cmp, i);
    }
  }

  /** heapify (heap.c:133-135): sink every index from `cant/2` down to 0. */
  method Heapify<T(!new)>(a: array<T>, n: nat, cmp: (T, T) -> int)
    requires Preorder(cmp) && n <= a.Length
    modifies a
    ensures IsHeap(a[..], n, cmp)
    ensures multiset(a[..n]) == multiset(old(a[..n])) && a[n..] == old(a[n..])
  {
    var i := 0;
    while i <= n / 2
      invariant 0 <= i <= n / 2 + 1
      invariant HeapFrom(a[..], n, n / 2 + 1 - i, cmp)
      invariant multiset(a[..n]) == multiset(old(a[..n])) && a[n..] == old(a[n..])
    {
      Downheap(a, n, n / 2 - i, cmp, n / 2 - i);
      i := i + 1;
    }
  }

  /** No element of `s` compares greater than any element of `t`. */
  ghost predicate AllLe<T>(s: seq<T>, t: seq<T>, cmp: (T, T) -> int)
  {
    forall x, y :: x in s && y in t ==> cmp(x, y) <= 0
  }

  ghost predicate Sorted<T>(s: seq<T>, cmp: (T, T) -> int)
  {
    forall i, j :: 0 <= i < j < |s| ==> cmp(s[i], s[j]) <= 0
  }

  /** The state heap_sort keeps: a heap on `s[..m]`, followed by the largest elements sorted in `s[m..n]`. */
  ghost predicate SortState<T>(s: seq<T>, m: nat, n: nat, cmp: (T, T) -> int)
    requires m <= n <= |s|
  {
    IsHeap(s, m, cmp) && Sorted(s[m..n], cmp) && AllLe(s[..m], s[m..n], cmp)
  }

  /**
   * heap_sort (heap.c:137-143): heapify, then repeatedly swap the maximum to the end of the
   * shrinking heap and sink the new root.  The first `n` elements end sorted ascending.
   */
  method HeapSort<T(!new)>(a: array<T>, n: nat, cmp: (T, T) -> int)
    requires Preorder(cmp) && n <= a.Length
    modifies a
    ensures Sorted(a[..n], cmp)
    ensures multiset(a[..n]) == multiset(old(a[..n])) && a[n..] == old(a[n..])
  {
    Heapify(a, n, cmp);
    SortStart(a[..], n, cmp);
    for i := 0 to n
      invariant SortState(a[..], n - i, n, cmp)
      invariant multiset(a[..n]) == multiset(old(a[..n])) && a[n..] == old(a[n..])
    {
      SortRound(a, n - i, n, cmp);
    }
    SortEnd(a[..], n, cmp);
  }

  /** A heap of the first `n` elements, with nothing sorted yet, is where heap_sort's loop starts. */
  lemma SortStart<T>(s: seq<T>, n: nat, cmp: (T, T) -> int)
    requires n <= |s| && IsHeap(s, n, cmp)
    ensures SortState(s, n, n, cmp)
  {
    assert s[n..n] == [];
  }

  /** With the heap part empty, the first `n` elements are sorted. */
  lemma SortEnd<T>(s: seq<T>, n: nat, cmp: (T, T) -> int)
    requires n <= |s| && SortState(s, 0, n, cmp)
    ensures Sorted(s[..n], cmp)
  {
    assert s[..n] == s[0..n];
  }

  /** One iteration of heap_sort's loop (heap.c:140-141): the maximum of `a[..m]` moves to `a[m-1]`. */
  method SortRound<T(!new)>(a: array<T>, m: nat, n: nat, cmp: (T, T) -> int)
    requires Preorder(cmp) && 0 < m <= n <= a.Length && SortState(a[..], m, n, cmp)
    modifies a
    ensures SortState(a[..], m - 1, n, cmp)
    ensures multiset(a[..n]) == multiset(old(a[..n])) && a[n..] == old(a[n..])
  {
    ghost var s := a[..];
    Swap(a, 0, m - 1);
    ghost var t := a[..];
    SortStep(s, t, m, n, cmp);
    Downheap(a, m - 1, 0, cmp, 0);
    PrefixPermuted(t, a[..], m - 1, n, cmp);
  }

  /**
   * One round of heap_sort: swapping the root of the heap `s[..m]` to position `m-1` grows the
   * sorted suffix by one and leaves the rest a heap except at the root.
   */
  lemma SortStep<T(!new)>(s: seq<T>, t: seq<T>, m: nat, n: nat, cmp: (T, T) -> int)
    requires Preorder(cmp) && 0 < m <= n <= |s|
    requires SortState(s, m, n, cmp)
    requires t == s[0 := s[m - 1]][m - 1 := s[0]]
    ensures Sorted(t[m - 1..n], cmp) && AllLe(t[..m - 1], t[m - 1..n], cmp)
    ensures HeapExcept(t, m - 1, 0, 0, cmp) && Bridge(t, m - 1, 0, 0, cmp)
    ensures multiset(t[..n]) == multiset(s[..n]) && t[n..] == s[n..]
  {
    RootDominates(s, m, cmp);
    SwapPermutes(s, t, 0, m - 1, n);
    assert t[m..n] == s[m..n];
    assert t[m - 1..n] == [s[0]] + s[m..n];
    assert s[0] in s[..m];
    forall x | x in t[..m - 1] ensures x in s[..m] && cmp(x, s[0]) <= 0 {
      var i :| 0 <= i < m - 1 && t[i] == x;
      assert x == s[if i == 0 then m - 1 else i];
      assert x in multiset(s[..m]);
    }
    forall i | 0 < i < m - 1 && Parent(i) != 0 ensures cmp(t[Parent(i)], t[i]) >= 0 {
      assert t[i] == s[i] && t[Parent(i)] == s[Parent(i)];
    }
  }

  /** Sinking within `t[..m]` keeps the sorted suffix and the bound between prefix and suffix. */
  lemma PrefixPermuted<T>(t: seq<T>, u: seq<T>, m: nat, n: nat, cmp: (T, T) -> int)
    requires m <= n <= |t| == |u|
    requires multiset(u[..m]) == multiset(t[..m]) && u[m..] == t[m..]
    requires IsHeap(u, m, cmp) && Sorted(t[m..n], cmp) && AllLe(t[..m], t[m..n], cmp)
    ensures SortState(u, m, n, cmp)
    ensures multiset(u[..n]) == multiset(t[..n]) && u[n..] == t[n..]
  {
    assert u[m..n] == t[m..n];
    forall x | x in u[..m] ensures x in t[..m] {
      assert x in multiset(u[..m]);
    }
    assert u[..n] == u[..m] + u[m..n];
    assert t[..n] == t[..m] + t[m..n];
  }

  /** Writing `x` just past a heap of `c` elements leaves only `x` against its parent to fix. */
  lemma AppendReady<T>(s: seq<T>, t: seq<T>, c: nat, x: T, cmp: (T, T) -> int)
    requires c < |s| && IsHeap(s, c, cmp) && t == s[c := x]
    ensures HeapBut(t, c + 1, c, cmp) && Lift(t, c + 1, c, cmp)
    ensures multiset(t[..c + 1]) == multiset(s[..c]) + multiset{x}
  {
    assert t[..c + 1] == s[..c] + [x];
    forall i | 0 < i < c + 1 && i != c ensures cmp(t[Parent(i)], t[i]) >= 0 {
      assert t[i] == s[i] && t[Parent(i)] == s[Parent(i)];
    }
  }

  /** The store-and-rise of heap_encolar (heap.c:85-86): `x` joins the heap `a[..n]`. */
  method Append<T(!new)>(a: array<T>, n: nat, x: T, cmp: (T, T) -> int)
    requires Preorder(cmp) && n < a.Length && IsHeap(a[..], n, cmp)
    modifies a
    ensures IsHeap(a[..], n + 1, cmp)
    ensures multiset(a[..n + 1]) == multiset(old(a[..n])) + multiset{x}
  {
    ghost var s := a[..];
    a[n] := x;
    AppendReady(s, a[..], n, x, cmp);
    Upheap(a, n, cmp, n + 1);
  }

  /**
   * Moving the last of `c + 1` heap elements to the root leaves `c` elements out of order only
   * between the root and its children, and removes one occurrence of the old root.
   */
  lemma RootReplaced<T>(s: seq<T>, c: nat, cmp: (T, T) -> int)
    requires 0 < c < |s| && IsHeap(s, c + 1, cmp)
    ensures HeapExcept(s[0 := s[c]], c, 0, 0, cmp) && Bridge(s[0 := s[c]], c, 0, 0, cmp)
    ensures multiset(s[0 := s[c]][..c]) == multiset(s[..c + 1]) - multiset{s[0]}
  {
    var t := s[0 := s[c]];
    assert s[..c + 1] == [s[0]] + s[1..c] + [s[c]];
    assert t[..c] == [s[c]] + s[1..c];
    forall i | 0 < i < c && Parent(i) != 0 ensures cmp(t[Parent(i)], t[i]) >= 0 {
      assert t[i] == s[i] && t[Parent(i)] == s[Parent(i)];
    }
  }

  /** The removal step of heap_desencolar (heap.c:125-128): the last of `n` elements replaces the root and sinks. */
  method ReplaceRoot<T(!new)>(a: array<T>, n: nat, cmp: (T, T) -> int)
    requires Preorder(cmp) && 1 < n <= a.Length && IsHeap(a[..], n, cmp)
    modifies a
    ensures IsHeap(a[..], n - 1, cmp)
    ensures multiset(a[..n - 1]) == multiset(old(a[..n])) - multiset{old(a[0])}
  {
    ghost var s := a[..];
    a[0] := a[n - 1];
    RootReplaced(s, n - 1, cmp);
    Downheap(a, n - 1, 0, cmp, 0);
  }

  /** heap_encolar's growth as written (heap.c:82-83): the capacity times FACTOR_REDIMENSION. */
  function GrowAsWritten(capacity: nat): nat
  {
    capacity * ResizeFactor
  }

  /** The capacity heap_crear_arr allocates for `n` elements (heap.c:148, heap.c:155). */
  function ArrayCapacity(n: nat): nat
  {
    n + n / 2
  }

  /**
   * A heap built by heap_crear_arr from no elements has capacity 0; as written, growth keeps it 0,
   * so the first heap_encolar asks `realloc` for 0 bytes.  Where that frees the block and returns
   * NULL, heap_encolar fails and leaves `datos` dangling for a double free in heap_destruir;
   * where it returns a zero-size block, `datos[0]` is written past the end.
   */
  lemma EmptyArrayHeapNeverGrows(k: nat)
    ensures ArrayCapacity(0) == 0
    ensures GrowAsWritten(ArrayCapacity(0)) == 0
    ensures Iterate(k, 0) == 0
  {
    if k > 0 {
      EmptyArrayHeapNeverGrows(k - 1);
    }
  }

  /** `k` successive growths as written, starting from `capacity`. */
  function Iterate(k: nat, capacity: nat): nat
  {
    if k == 0 then capacity else GrowAsWritten(Iterate(k - 1, capacity))
  }

  /** The growth the model uses: as written, except that capacity 0 grows to CAPACIDAD_MINIMA. */
  function Grow(capacity: nat): (c: nat)
    ensures c > capacity
  {
    if capacity == 0 then MinCapacity else capacity * ResizeFactor
  }

  /** heap_desencolar's shrink test (heap.c:113): a quarter full or less, and above CAPACIDAD_MINIMA. */
  predicate ShrinkDue(count: nat, capacity: nat)
  {
    count * ResizeFactor <= capacity && capacity > MinCapacity
  }

  /** The capacity heap_desencolar shrinks to (heap.c:114). */
  function ShrunkCapacity(count: nat): (c: nat)
    ensures c >= count
  {
    count * ResizeFactor
  }

  /**
   * `heap_t`: `data` is `datos` (its length is `capacidad`) and `count` is `cantidad`.
   * The elements are `data[..count]`.
   */
  class BinaryHeap<T(0, !new)> {
    var data: array<T>
    var count: nat
    const cmp: (T, T) -> int
    ghost var Elements: multiset<T>

    ghost predicate Valid()
      reads this, data
    {
      && count <= data.Length
      && Preorder(cmp)
      && IsHeap(data[..], count, cmp)
      && Elements == multiset(data[..count])
    }


    /** heap_crear (heap.c:17-31): empty, with capacity CAPACIDAD_MINIMA. */
    constructor (cmp: (T, T) -> int)
      requires Preorder(cmp)
      ensures Valid() && fresh(data) && this.cmp == cmp
      ensures count == 0 && data.Length == MinCapacity && Elements == multiset{}
    {
      data := new T[MinCapacity];
      count := 0;
      this.cmp := cmp;
      Elements := multiset{};
    }

    /** heap_crear_arr (heap.c:145-158): copy the `n` elements, heapify, capacity `n + n/2`. */
    constructor FromArray(elements: seq<T>, cmp: (T, T) -> int)
      requires Preorder(cmp)
      ensures Valid() && fresh(data) && this.cmp == cmp
      ensures count == |elements| && data.Length == ArrayCapacity(|elements|)
      ensures Elements == multiset(elements)
    {
      var n := |elements|;
      var arr := new T[n + n / 2];
      for i := 0 to n
        invariant arr[..i] == elements[..i]
      {
        arr[i] := elements[i];
      }
      assert arr[..n] == elements;
      Heapify(arr, n, cmp);
      data := arr;
      count := n;
      this.cmp := cmp;
      Elements := multiset(elements);
    }

    /** heap_cantidad (heap.c:42-44). */
    function Count(): (n: nat)
      reads this, data
      requires Valid()
      ensures n == |Elements|
    {
      count
    }

    /** heap_esta_vacio (heap.c:46-48). */
    function IsEmpty(): (b: bool)
      reads this, data
      requires Valid()
      ensures b <==> Elements == multiset{}
    {
      count == 0
    }

    /** heap_ver_max (heap.c:50-53): nothing when empty, otherwise a maximum element. */
    method PeekMax() returns (r: Option<T>)
      requires Valid()
      ensures r.None? <==> Elements == multiset{}
      ensures r.Some? ==> IsMax(r.value, Elements, cmp)
    {
      if count == 0 {
        return None;
      }
      RootDominates(data[..], count, cmp);
      return Some(data[0]);
    }

    /** redimensionar (heap.c:61-68): `realloc` keeps the elements and changes the capacity. */
    method Resize(newCapacity: nat)
      requires Valid() && count <= newCapacity
      modifies this
      ensures Valid() && fresh(data) && data.Length == newCapacity
      ensures count == old(count) && data[..count] == old(data[..count]) && Elements == old(Elements)
    {
      ghost var kept := data[..count];
      var newData := new T[newCapacity];
      forall i | 0 <= i < count {
        newData[i] := data[i];
      }
      assert newData[..count] == kept;
      SamePrefix(data[..], newData[..], count, cmp);
      data := newData;
    }

    /** The growth step of heap_encolar (heap.c:82-84): when full, grow with `Grow`. */
    method MakeRoom()
      requires Valid()
      modifies this
      ensures Valid() && count == old(count) && count < data.Length
      ensures data[..count] == old(data[..count])
      ensures data.Length == if old(count) == old(data.Length) then Grow(old(data.Length)) else old(data.Length)
      ensures data == old(data) || fresh(data)
      ensures Elements == old(Elements)
    {
      if count == data.Length {
        Resize(Grow(data.Length));
      }
    }

    /** heap_encolar (heap.c:81-89): grow when full, append, rise. */
    method Push(x: T)
      requires Valid()
      modifies this, data
      ensures Valid() && count == old(count) + 1
      ensures Elements == old(Elements) + multiset{x}
      ensures data == old(data) || fresh(data)
      ensures data.Length == if old(count) == old(data.Length) then Grow(old(data.Length)) else old(data.Length)
    {
      MakeRoom();
      Append(data, count, x, cmp);
      count := count + 1;
      Elements := Elements + multiset{x};
    }

    /** The shrink step of heap_desencolar (heap.c:113-115). */
    method Shrink()
      requires Valid()
      modifies this
      ensures Valid() && count == old(count) && Elements == old(Elements)
      ensures data == old(data) || fresh(data)
      ensures data.Length == if ShrinkDue(old(count), old(data.Length)) then ShrunkCapacity(old(count)) else old(data.Length)
    {
      if ShrinkDue(count, data.Length) {
        Resize(ShrunkCapacity(count));
      }
    }

    /**
     * heap_desencolar (heap.c:111-131): first shrink to `cantidad * 4` when that is at most the
     * capacity and the capacity exceeds CAPACIDAD_MINIMA; then nothing when empty, otherwise
     * remove the root, move the last element there and sink it.
     */
    method Pop() returns (r: Option<T>)
      requires Valid()
      modifies this, data
      ensures Valid()
      ensures old(count) == 0 ==> r.None? && count == 0
      ensures old(count) > 0 ==>
        && r.Some? && IsMax(r.value, old(Elements), cmp)
        && Elements == old(Elements) - multiset{r.value}
        && count == old(count) - 1
      ensures data == old(data) || fresh(data)
      ensures data.Length == if ShrinkDue(old(count), old(data.Length)) then ShrunkCapacity(old(count)) else old(data.Length)
    {
      Shrink();
      if count == 0 {
        return None;
      }
      var top := RemoveMax();
      return Some(top);
    }

    /** The removal half of heap_desencolar (heap.c:118-130), on a heap that is not empty. */
    method RemoveMax() returns (top: T)
      requires Valid() && count > 0
      modifies this, data
      ensures Valid() && data == old(data) && count == old(count) - 1
      ensures IsMax(top, old(Elements), cmp) && Elements == old(Elements) - multiset{top}
    {
      top := data[0];
      RootDominates(data[..], count, cmp);
      Elements := Elements - multiset{top};
      if count == 1 {
        count := 0;
        return;
      }
      ReplaceRoot(data, count, cmp);
      count := count - 1;
    }
  }
}

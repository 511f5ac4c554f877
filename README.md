# Verified model of a C data-structure library

This project is a Dafny model of a small C library of in-memory containers. It covers:

- `hash.c`: an open-addressing hash table from C strings to opaque values. It uses linear probing with wraparound and tombstone deletion, and resizes on load thresholds that count tombstones. It has an external iterator in slot order.
- `abb.c`: a binary search tree map under a caller-supplied key comparison. It has a stack-based in-order iterator and a recursive in-order walk with early stop.
- `heap.c`: an array-backed binary max-heap, plus the in-place `heapify` and `heap_sort`.
- `lista.c`: a singly-linked list with first/last pointers, a length field, a cursor iterator that inserts and deletes, and an internal iterator.
- `pila.c`: a dynamic-array stack, also used by the tree iterator.
- `cola.c`: a linked FIFO queue.

Each C file is one module: `Hash`, `Abb`, `Heap`, `Lista`, `Pila` and `Cola`. `Options` holds the `Option` datatype, which stands for the C functions' NULL results. `Orders` states what the code silently assumes about a comparison function: a total preorder for the heap and a total order for the tree.

## How the C code is modelled

- **Imperative code stays imperative.**
  - Structures whose fields the C functions update in place are classes: `HashTable`, `BinaryHeap`, `Stack`, `Queue`, `List`, `SearchTree` and the iterators.
  - Their buffers are arrays: the slot array `tabla`, the heap's `datos` and the stack's `datos`.
  - The C loops are `while`/`for` loops with invariants.
- **Each class has a ghost abstraction.** This is `Contents` for the hash table, the stack, the queue and the list, `Elements` (a multiset) for the heap, and `MapOf(root)` for the tree.
- **Each operation's `ensures` ties its results and new state to that abstraction.**
  - Lemmas prove what the C code promises about it.
  - Structural invariants (`Valid`) are kept by every operation.
- **Hash table specifics.**
  - A key is the bytes of a C string before its terminating NUL, so the `Key` type excludes the byte 0.
  - `FNVHash` is the pure fold `Fnv` over the key bytes in `bv64`. This fixes `size_t` at 64 bits, so the multiplication wraps modulo 2^64.
  - `char` is taken as signed, so a byte at or above 0x80 is sign-extended by `(size_t)(*str)`.
  - `redimensionar` re-stores entries through the public `hash_guardar` without resetting `carga`, so `Put` and `Resize` are mutually recursive methods, exactly as in the C code.
    - A rebuild can therefore trigger a nested grow. `Resize` promises a capacity of at least the requested one, not equal to it.
    - The invariant `Inv` tolerates a stale `carga` in the middle of a rebuild. `Valid` adds `carga == OCUPADO + BORRADO`, which holds between public calls.
- **Linked nodes.** The list and queue nodes are a `Node` class. The owning object keeps a ghost sequence `nodes` of its chain, and `Valid` states the links, the first/last pointers and `largo`.
- **The search tree is held as a `Tree` datatype value.** In the C node graph no node has two parents, so a value loses no sharing.
  - The pointer rewiring of `abb_guardar` and `abb_borrar` becomes a path rebuild (`Insert`, `Unlink`, `Relabel`).
  - `buscar_nodo`'s descent, the predecessor walk of `abb_borrar`, and the iterator's pushes onto a `Pila.Stack` stay loops.
- **Callbacks.**
  - Comparators are arrow values required to be orders.
  - Destructors are a `hasDestructor` flag plus a ghost log `Destroyed` of the values they were called on.

Two consequences of `hash.c` as written are treated as follows:

- `hash.c:162-163` shrinks with no floor on the capacity. This is logged under Findings: `Hash.ShrinkWithoutFloor` models the rule as written, and `Hash.HashTable.Remove` uses a floored rule as the corrected behaviour.
- `hash.c:104` rebuilds through the public `hash_guardar`, whose grow check reads the stale `carga`, so a rebuild can grow again inside itself. The model keeps this nested rebuild.

## Model

| member | source | states |
|---|---|---|
| Hash.FnvHash | hash.c:42-53 | the hashing loop returns the left fold `Fnv`: start at 0; per byte, multiply by 0x811C9DC5 modulo 2^64, then xor the sign-extended byte |
| Hash.FnvAppend | hash.c:47-50 | hashing a key with one more byte is one more multiply-xor round on the hash of the key |
| Hash.Home | hash.c:120 | the home bucket `FNVHash % capacidad` is a valid slot index |
| Hash.ProbeIndex | hash.c:129-131 | the slot after `d` wrapping steps from the home bucket is a valid index |
| Hash.Distance | hash.c:129-131 | every slot is reached from a home bucket after exactly one number of steps below the capacity |
| Hash.MapOfKeys | hash.c:26-32 | a key is in the table's mapping exactly when some OCUPADO slot holds it |
| Hash.MapOfValue | hash.c:26-32 | with distinct keys, each stored key maps to the value in its slot |
| Hash.MapOfSize | hash.c:26-32 | with distinct keys, `cantidad` (the OCUPADO count) is the number of keys in the mapping |
| Hash.MapOfWrite | hash.c:134-138 | writing a key into a fresh slot or over its own slot updates the mapping at that key only |
| Hash.MapOfErase | hash.c:170 | turning an OCUPADO slot into BORRADO removes exactly its key from the mapping |
| Hash.CountsAfterWrite | hash.c:138-140 | how the OCUPADO count and the used-slot count change when one slot is overwritten |
| Hash.NoTombstonesCounts | hash.c:109 | without tombstones the used-slot count equals the OCUPADO count, so setting `carga = cantidad` after a rebuild is exact |
| Hash.EmptyCount | hash.c:123 | a VACIO slot exists exactly when fewer slots are used than the capacity |
| Hash.ProbeCoversTable | hash.c:123-132 | a probe that passed as many non-VACIO slots as the capacity has seen every slot, so the table was full |
| Hash.MigrateStep | hash.c:101-107 | one migration step adds the entry of an OCUPADO old slot, whose key was not migrated before |
| Hash.ProbeMiss | hash.c:149-156 | a probe that meets VACIO before any slot with the key proves the key absent: tombstones never end the search early |
| Hash.ProbeInvariantKept | hash.c:166-171 | writes that never turn a used slot back into VACIO, including deletion to BORRADO, keep every stored key reachable from its home bucket |
| Hash.BelowGrowThreshold | hash.c:116-117 | when no grow is due the load is under 70% of the capacity, so one more store still leaves a VACIO slot |
| Hash.ShrinkWithoutFloor | hash.c:162-163 | as written, deletes on an empty table shrink the capacity 10, 5, 2, 1, 0; two stores at capacity 2 trigger no grow |
| Hash.FullTableProbeNeverStops | hash.c:149-154 | in a table without a VACIO slot, a lookup of an absent key never meets the exit of its loop |
| Hash.EmptyTableFacts | hash.c:69 | an all-VACIO table stands for the empty mapping with zero counts and satisfies every invariant |
| Hash.InsertKeepsInvariant | hash.c:134-140 | claiming the VACIO slot where the probe for an absent key stopped keeps keys distinct and reachable, adds the key, and raises both counters by one |
| Hash.OverwriteKeepsInvariant | hash.c:124-127 | replacing the value in the key's own slot changes only that key's value and neither counter |
| Hash.EraseKeepsInvariant | hash.c:169-171 | a tombstone removes exactly its key, lowers `cantidad` by one, keeps the used count, and keeps every other key reachable |
| Hash.KeysAt | hash.c:228-233 | from an OCUPADO slot, the keys still to visit start with that slot's key |
| Hash.KeysSkip | hash.c:205-211 | slots without a key add nothing to the keys still to visit |
| Hash.KeysVisitEachOnce | hash.c:195-239 | walking the slots in index order lists every key of the mapping exactly once |
| Hash.NewTable | hash.c:69 | the slot loop yields a fresh array of the requested size with every slot VACIO |
| Hash.HashTable.constructor | hash.c:57-71 | capacity TAM_INICIAL, `cantidad == carga == 0`, every slot VACIO, the empty mapping |
| Hash.HashTable.Probe | hash.c:120-132 | the probe stops at the key's slot or at a VACIO slot, at VACIO exactly when the key is absent, after crossing only non-VACIO slots |
| Hash.HashTable.Find | hash.c:145-158 | `buscar_campo` finds nothing exactly when the key is absent, and otherwise the slot holding the key and its value |
| Hash.HashTable.Put | hash.c:115-142 | the mapping gains `k := v`; `cantidad` grows only for a new key; the destructor ran once on the replaced value; the grow check reads the old load, and a grow at least doubles the capacity and resets `carga` |
| Hash.HashTable.Store | hash.c:120-141 | the store half: overwrite the value of a present key (destructor logged), or claim a VACIO slot and raise `cantidad` and `carga` |
| Hash.HashTable.Resize | hash.c:89-112 | the rebuild keeps the mapping and `cantidad`, drops every tombstone, gives a capacity of at least the requested one, and ends with `carga == cantidad` |
| Hash.HashTable.Get | hash.c:176-180 | the stored value, or nothing exactly when the key is absent |
| Hash.HashTable.Contains | hash.c:183-187 | true exactly when the key is present |
| Hash.HashTable.Size | hash.c:190-192 | `cantidad` is the number of keys stored |
| Hash.HashTable.Remove | hash.c:161-173 | the key leaves the mapping; its value is returned without calling the destructor, or nothing for an absent key; `cantidad` drops; `carga` is kept, except that a due shrink resets it to the old `cantidad` |
| Hash.HashIterator.constructor | hash.c:195-216 | the iterator starts with every key in slot order still to visit, at the end exactly when `cantidad == 0` |
| Hash.HashIterator.AtEnd | hash.c:219-221 | true exactly when no key is left to visit |
| Hash.HashIterator.Current | hash.c:242-245 | the next key to visit, or nothing at the end |
| Hash.HashIterator.Advance | hash.c:224-239 | drops the current key from those left; the result is true exactly when a key is still current afterwards |
| Hash.ScanOccupied | hash.c:228-235 | the scan stops at the first OCUPADO slot from its start, or at the capacity when there is none; the slots it passes hold no key |
| Heap.Swap | heap.c:55-59 | the two positions exchange their elements and nothing else changes |
| Heap.SwapPermutes | heap.c:55-59 | a swap inside the first `n` elements permutes them and leaves the rest alone |
| Heap.Upheap | heap.c:70-79 | with the only defect between `c` and its parent, rising restores the heap property by permuting the elements |
| Heap.RiseStep | heap.c:75-77 | swapping a child with a smaller parent moves the only defect up to the parent |
| Heap.Downheap | heap.c:91-109 | with the only defect between `p` and its children, including the special case of two elements, sinking restores the heap order of the region by permuting the elements |
| Heap.SinkStep | heap.c:101-107 | swapping `p` with its greatest child moves the only defect down to that child |
| Heap.SinkDone | heap.c:105 | when no child compares greater, the region is in heap order |
| Heap.RootIsMax | heap.c:50-53 | in a heap no element compares greater than the root |
| Heap.RootDominates | heap.c:50-53 | the root of a non-empty heap is one of its elements and a maximum of them |
| Heap.Heapify | heap.c:133-135 | the first `cant` elements become a heap holding the same multiset; the rest of the array is untouched |
| Heap.HeapSort | heap.c:137-143 | the first `cant` elements end sorted ascending under `cmp` and a permutation of the input |
| Heap.SortRound | heap.c:140-141 | one round moves the maximum of the heap prefix to its end, growing the sorted suffix |
| Heap.SortStep | heap.c:140-141 | the swapped-out root extends the sorted suffix and stays at most every later element |
| Heap.PrefixPermuted | heap.c:141 | sinking inside the prefix keeps the sorted suffix and the bound between prefix and suffix |
| Heap.AppendReady | heap.c:85 | storing `x` past a heap leaves only `x` against its parent to fix and adds one `x` to the multiset |
| Heap.Append | heap.c:85-86 | store and rise: a heap of one more element holding one more `x` |
| Heap.RootReplaced | heap.c:125-126 | moving the last element to the root removes one occurrence of the old root and leaves a defect only at the root |
| Heap.ReplaceRoot | heap.c:125-128 | the last element replaces the root and sinks: a heap of one element fewer, without one occurrence of the old root |
| Heap.EmptyArrayHeapNeverGrows | heap.c:148-155 | as written, a heap built from no elements has capacity 0, and any number of ×4 growths keeps it 0 |
| Heap.Grow | heap.c:82-83 | the corrected growth always enlarges the capacity |
| Heap.ShrunkCapacity | heap.c:114 | the shrunk capacity `cantidad * 4` still holds every element |
| Heap.BinaryHeap.constructor | heap.c:17-31 | an empty heap with capacity CAPACIDAD_MINIMA |
| Heap.BinaryHeap.FromArray | heap.c:145-158 | the heap holds exactly the given elements in heap order, with capacity `n + n/2` |
| Heap.BinaryHeap.Count | heap.c:42-44 | `cantidad` is the number of elements held |
| Heap.BinaryHeap.IsEmpty | heap.c:46-48 | true exactly when no element is held |
| Heap.BinaryHeap.PeekMax | heap.c:50-53 | nothing exactly when empty, otherwise a maximum of the elements |
| Heap.BinaryHeap.Resize | heap.c:61-68 | the new capacity is the requested one and the elements stay in place |
| Heap.BinaryHeap.MakeRoom | heap.c:82-84 | a full heap grows first; the elements are unchanged and there is room for one more |
| Heap.BinaryHeap.Push | heap.c:81-89 | the multiset gains one `x` and `cantidad` grows by one; the capacity grows only when full, into the old array or a fresh one; the heap property holds |
| Heap.BinaryHeap.Shrink | heap.c:113-115 | at most a quarter full with the capacity above CAPACIDAD_MINIMA, the capacity becomes `cantidad * 4`; the elements are unchanged |
| Heap.BinaryHeap.Pop | heap.c:111-131 | after the shrink check, nothing when empty; otherwise a maximum leaves, one occurrence only, and `cantidad` drops by one; the storage is the old array or a fresh one |
| Heap.BinaryHeap.RemoveMax | heap.c:118-130 | a non-empty heap gives up a maximum, one occurrence of it, keeping the heap property |
| Pila.Grown | pila.c:54-55 | doubling a capacity of at least TAMANO_INICIAL enlarges it |
| Pila.Shrunk | pila.c:74-75 | a due shrink halves the capacity, still holds twice the elements and stays above TAMANO_INICIAL |
| Pila.Stack.constructor | pila.c:16-29 | an empty stack with capacity TAMANO_INICIAL |
| Pila.Stack.IsEmpty | pila.c:48-50 | true exactly when the stack holds nothing |
| Pila.Stack.Resize | pila.c:38-45 | the elements are kept and the capacity is the requested one |
| Pila.Stack.MakeRoom | pila.c:54-56 | a full stack doubles its capacity first; the elements are unchanged |
| Pila.Stack.Push | pila.c:53-61 | `valor` becomes the new top above the old contents; the capacity doubles only when full |
| Pila.Stack.Peek | pila.c:64-67 | the most recently pushed element still present, or nothing when empty |
| Pila.Stack.Pop | pila.c:70-78 | nothing when empty; otherwise the top leaves (LIFO), and the capacity halves exactly when the shrink condition holds after the removal |
| Cola.Node.constructor | cola.c:18-25 | a node holding the element with no successor |
| Cola.Queue.constructor | cola.c:28-35 | an empty queue with both pointers null |
| Cola.Queue.IsEmpty | cola.c:38-40 | true exactly when the queue holds nothing, and exactly when `ult` is null |
| Cola.Queue.Enqueue | cola.c:43-53 | the element joins at the back, behind the old contents, in a freshly allocated node |
| Cola.Queue.Peek | cola.c:56-59 | the front element, or nothing when empty |
| Cola.Queue.Dequeue | cola.c:62-72 | nothing when empty; otherwise the front element leaves first (FIFO), and the chain stays valid with `ult` cleared when it empties |
| Lista.Node.constructor | lista.c:12-19 | a node holding the element and the given successor |
| Lista.List.constructor | lista.c:36-44 | an empty list with null pointers and length 0 |
| Lista.List.IsEmpty | lista.c:47-49 | true exactly when the list holds nothing |
| Lista.List.Length | lista.c:106-108 | `largo` is the number of elements |
| Lista.List.InsertFirst | lista.c:52-64 | the element goes in front; the last node is unchanged unless the list was empty; the new node is freshly allocated |
| Lista.List.InsertLast | lista.c:67-77 | the element goes at the back; the first node is unchanged unless the list was empty; the new node is freshly allocated |
| Lista.List.RemoveFirst | lista.c:80-91 | nothing when empty; otherwise the first element leaves and is returned |
| Lista.List.PeekFirst | lista.c:94-97 | the first element, or nothing when empty |
| Lista.List.PeekLast | lista.c:100-103 | the last element, or nothing when empty |
| Lista.List.Link | lista.c:155-171 | a new node holding `x` enters the chain at position `k`, fixing `prim` or `ult` at either end |
| Lista.List.Unlink | lista.c:179-193 | the node at position `k` leaves the chain, `ult` falls back to the previous node, and the successor is returned |
| Lista.List.Iterate | lista.c:205-210 | the visit calls go front to back; every call but the last answered true; the walk ends early only after a false answer; a non-empty list gets at least one call |
| Lista.ListIterator.constructor | lista.c:124-132 | the cursor starts at the first element |
| Lista.ListIterator.AtEnd | lista.c:149-151 | true exactly when the cursor is past the last element |
| Lista.ListIterator.Current | lista.c:143-146 | the element under the cursor, or nothing at the end |
| Lista.ListIterator.Advance | lista.c:135-140 | moves one element forward, and answers false without moving only at the end |
| Lista.ListIterator.Insert | lista.c:154-173 | the element goes in just before the cursor position and becomes the element under the cursor, in a freshly allocated node |
| Lista.ListIterator.Remove | lista.c:176-196 | nothing at the end; otherwise the element under the cursor leaves and is returned, and its successor takes its place |
| Abb.SizeIsCount | abb.c:86-91 | in a search tree the number of nodes is the number of keys |
| Abb.MapOfNode | abb.c:10-15 | a node's mapping is its own entry plus its subtrees' entries, whose key sets are apart |
| Abb.FindSpec | abb.c:59-69 | the search finds a node exactly for the keys the tree holds, with the key's data, inside the tree |
| Abb.FindDescends | abb.c:149 | searching the whole tree for a key inside the found node's subtree ends where searching that subtree does |
| Abb.InsertEntries | abb.c:71-93 | storing maps `k` to `v`, leaves every other key alone, and adds a node only for a new key |
| Abb.InsertSpec | abb.c:84-90 | storing keeps the search-tree property, besides mapping `k` to `v` and leaving every other key alone |
| Abb.UnlinkSpec | abb.c:122-134 | replacing the node for `k` by its only child, or by nothing, keeps the search-tree property and removes `k` and nothing else |
| Abb.Rightmost | abb.c:138-143 | the right-child walk from a node ends at a node |
| Abb.RightmostSpec | abb.c:138-143 | the rightmost node has no right child and holds the largest key, with its data, and a search for it finds it |
| Abb.PredecessorSpec | abb.c:137-143 | the rightmost node of the left subtree of the node for `k` is at least every key of the tree below `k`: the in-order predecessor |
| Abb.RelabelEntries | abb.c:150-152 | giving the node for `hi` the key `lo` and data `lv` trades the entry of `hi` for `lo := lv` |
| Abb.RelabelSpec | abb.c:150-152 | when `lo` is just below `hi`, the relabelled tree is still a search tree |
| Abb.RemovalFacts | abb.c:137-149 | in the two-children case the predecessor node has at most one child, lies below `k`, and is found by searching its key |
| Abb.RelabelAfterRemoval | abb.c:149-152 | removing the predecessor and then moving its entry into the node for `k` removes `k` and nothing else, keeping the search-tree property |
| Abb.InOrderSorted | abb.c:175-211 | the in-order keys are strictly ascending under the comparison and are exactly the tree's keys |
| Abb.VisitedAppend | abb.c:221-223 | the reference walk over `a + b` walks `b` only when every call on `a` answered true |
| Abb.WalkIsInOrder | abb.c:218-226 | the recursive walk makes exactly the calls of a front-to-back walk over the in-order entries, stopping at the first false |
| Abb.SearchTree.constructor | abb.c:47-57 | an empty tree with the given comparison and destructor |
| Abb.SearchTree.Count | abb.c:158-160 | `cantidad` is the number of keys stored |
| Abb.SearchTree.Search | abb.c:59-69 | the descent stops at the node holding the key, with its data, or at nothing exactly when the key is absent |
| Abb.SearchTree.Put | abb.c:71-93 | the mapping gains `k := v`; `cantidad` grows only for a new key; the destructor ran once on the replaced data |
| Abb.SearchTree.Get | abb.c:95-102 | the stored data, or nothing exactly when the key is absent |
| Abb.SearchTree.Contains | abb.c:104-111 | true exactly when the key is present |
| Abb.SearchTree.Remove | abb.c:113-156 | the key leaves the mapping and nothing else changes; its data is returned without calling the destructor, or nothing for an absent key; `cantidad` drops by one only when it was present |
| Abb.SearchTree.InOrder | abb.c:228-230 | the calls made are those of the reference walk over the in-order entries |
| Abb.PushNode | abb.c:182 | stacking a node puts its key, then its right subtree's keys, ahead of what the stack already owed |
| Abb.SpineStep | abb.c:183 | the keys of a node are those of its left subtree followed by the node's key and right subtree |
| Abb.PushLeft | abb.c:180-184 | stacking a subtree's left spine makes the subtree's keys, in order, come before everything the stack already owed |
| Abb.Descend | abb.c:192-199 | after a pop, the popped node's right subtree's keys, in order, come next |
| Abb.TreeIterator.constructor | abb.c:175-187 | the keys still to visit are the tree's keys in order, which are strictly ascending and visit each key once |
| Abb.TreeIterator.AtEnd | abb.c:209-211 | true exactly when no key is left to visit |
| Abb.TreeIterator.Current | abb.c:203-207 | the next key to visit, or nothing at the end |
| Abb.TreeIterator.Advance | abb.c:189-201 | drops the next key from those left; false only when nothing was left; the stack storage is the old array or a fresh one |

## Left out

- Allocation failures (`malloc`, `realloc` and `strdup` returning NULL) are not modelled: allocation always succeeds, so the `return false` and `return NULL` branches on those paths and their leaks are absent.
- The release functions `hash_destruir`, `hash_iter_destruir`, `abb_destruir`/`_abb_destruir`, `abb_iter_in_destruir`, `heap_destruir`, `pila_destruir`, `cola_destruir`, `lista_destruir` and `lista_iter_destruir` only free memory (and call the element destructor on what is left), so they are not modelled; nor are `free` and the `strdup` copies of keys.
- Destructor callbacks are modelled only as a log of the values they receive; comparison callbacks are arrow values assumed to be a total order (tree) or a total preorder (heap), which the C code relies on without stating.
- The `extra` argument of `visitar` in `abb_in_order` and `lista_iterar` is not modelled; the visit callbacks are pure functions of the element.
- Several iterators over one container, and mutation of a container while an iterator over it is live, are not modelled: an iterator's methods require the container's invariant, and the hash iterator's doc comment states that the table must not change under it.
- The `anterior` out-parameter of `buscar_nodo` is not modelled: the tree rebuild on the `Tree` value takes the place of rewiring the parent's `izq`/`der`, so node identity and in-place update of the tree nodes are not captured.
- Hash.HashTable.Remove: uses the corrected shrink rule `ShrinkDue` (no shrink below TAM_INICIAL) instead of the unfloored rule of `hash.c:162`, which is modelled separately (see Findings); the unfloored table is not modelled as a class.
- Hash.HashTable.Resize: states that the capacity is at least the requested one rather than equal to it, because a nested grow during the rebuild can enlarge it further.
- Heap.BinaryHeap.Push: uses the corrected growth `Grow` (capacity 0 grows to CAPACIDAD_MINIMA) instead of the ×4 growth of `heap.c:83`, which is modelled separately (see Findings).
- Hash key bytes are `bv8` with the platform choices fixed: 64-bit `size_t` and signed `char`; an unsigned-`char` platform would hash bytes from 0x80 up differently.
- Lista.List.Iterate: returns how many calls were made rather than modelling the callback's side effects; the calls' arguments are stated through `Contents`.

## Findings

| source | as written | input that shows it | evidently intended | confidence | as-written member | corrected member |
|---|---|---|---|---|---|---|
| hash.c:162-163 | `hash_borrar` halves the capacity whenever `carga*100/capacidad <= 25`, with no lower bound | on a new table, `hash_borrar` of an absent key twice takes the capacity 10, 5, 2; two `hash_guardar` of new keys then fill both slots without a grow, and a lookup of a third key loops forever in `buscar_campo`; two more deletes on the empty table reach capacity 1 and then 0, where `%` and `/` divide by zero | never shrink below TAM_INICIAL, so a VACIO slot always exists and every probe ends | not executed | Hash.ShrinkWithoutFloor | Hash.HashTable.Remove |
| hash.c:149-154 | the probe loop of `buscar_campo` ends only at a VACIO slot or at the key | a table with every slot OCUPADO or BORRADO and an absent key | the table always keeps a VACIO slot | not executed | Hash.FullTableProbeNeverStops | Hash.HashTable.Probe |
| heap.c:82-83 | `heap_encolar` grows a full heap to `capacidad * 4` | `heap_crear_arr` with `n == 0` gives capacity 0 (heap.c:148-155); the first `heap_encolar` finds `cantidad == capacidad`, asks `realloc` for 0 bytes; where that frees the block and returns NULL (glibc), `heap_encolar` returns false and leaves `datos` dangling for a double free in `heap_destruir`; where it returns a zero-size block, `datos[0]` is written past the end | a capacity of 0 grows to a positive one | not executed | Heap.EmptyArrayHeapNeverGrows | Heap.BinaryHeap.Push |

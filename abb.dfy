/**
 * abb.c: a binary search tree mapping string keys to opaque data, ordered by a
 * caller-supplied comparison, with an external in-order iterator built on the stack of
 * pila.c and an internal in-order walk driven by a visit callback.
 *
 * In the node graph of the C code no node has two parents, so it is modelled by the value
 * `Tree`; the tree object holds the root value and the count.
 */
module Abb {

  import opened Options
  import opened Orders
  import Pila

  /** A key: the characters of the `char *` the tree copies with strdup. */
  type Key = string

  /** `nodo_t`: left child `izq`, key `clave`, data `dato`, right child `der`. */
  datatype Tree<V> = Nil | Node(left: Tree<V>, key: Key, data: V, right: Tree<V>)

  /** The key-to-data mapping a tree stands for. */
  function MapOf<V>(t: Tree<V>): map<Key, V>
  {
    match t
    case Nil => map[]
    case Node(l, k, v, r) => (MapOf(l) + MapOf(r))[k := v]
  }

  function Size<V>(t: Tree<V>): nat
  {
    match t
    case Nil => 0
    case Node(l, _, _, r) => Size(l) + Size(r) + 1
  }

  /** The search-tree property: left keys compare below a node's key, right keys above it. */
  ghost predicate IsBst<V>(t: Tree<V>, cmp: (Key, Key) -> int)
  {
    match t
    case Nil => true
    case Node(l, k, _, r) =>
      && IsBst(l, cmp) && IsBst(r, cmp)
      && (forall x :: x in MapOf(l) ==> cmp(x, k) < 0)
      && (forall x :: x in MapOf(r) ==> cmp(x, k) > 0)
  }

  /** Strict order from a total order: `x < y < z` gives `x < z`. */
  lemma Below(cmp: (Key, Key) -> int, x: Key, y: Key, z: Key)
    requires TotalOrder(cmp) && cmp(x, y) < 0 && cmp(y, z) < 0
    ensures cmp(x, z) < 0
  {
    Transitive(cmp, z, y, x);
  }

  /** `x <= y < z` gives `x < z`. */
  lemma AtMostBelow(cmp: (Key, Key) -> int, x: Key, y: Key, z: Key)
    requires TotalOrder(cmp) && cmp(x, y) <= 0 && cmp(y, z) < 0
    ensures cmp(x, z) < 0
  {
    if x != y {
      Below(cmp, x, y, z);
    }
  }

  /** A node whose key and subtrees' key sets are apart maps as many keys as the parts together. */
  lemma NodeCount<V>(ml: map<Key, V>, mr: map<Key, V>, k: Key, v: V)
    requires ml.Keys * mr.Keys == {} && k !in ml && k !in mr
    ensures |(ml + mr)[k := v]| == |ml| + |mr| + 1
  {
    assert (ml + mr)[k := v].Keys == ml.Keys + mr.Keys + {k};
    assert |ml.Keys + mr.Keys| == |ml.Keys| + |mr.Keys|;
  }

  /** In a search tree the subtrees' key sets are apart, so the count of nodes is the count of keys. */
  lemma {:induction false} SizeIsCount<V>(t: Tree<V>, cmp: (Key, Key) -> int)
    requires TotalOrder(cmp) && IsBst(t, cmp)
    ensures Size(t) == |MapOf(t)|
  {
    match t
    case Nil =>
    case Node(l, k, v, r) =>
      SizeIsCount(l, cmp);
      SizeIsCount(r, cmp);
      MapOfNode(t, cmp);
      NodeCount(MapOf(l), MapOf(r), k, v);
  }

  /** The data of a key in a subtree is its data in the whole tree. */
  lemma {:induction false} MapOfNode<V>(t: Tree<V>, cmp: (Key, Key) -> int)
    requires TotalOrder(cmp) && t.Node? && IsBst(t, cmp)
    ensures t.key in MapOf(t) && MapOf(t)[t.key] == t.data
    ensures forall x :: x in MapOf(t.left) ==> x in MapOf(t) && MapOf(t)[x] == MapOf(t.left)[x]
    ensures forall x :: x in MapOf(t.right) ==> x in MapOf(t) && MapOf(t)[x] == MapOf(t.right)[x]
    ensures forall x :: x in MapOf(t) <==> x == t.key || x in MapOf(t.left) || x in MapOf(t.right)
    ensures t.key !in MapOf(t.left) && t.key !in MapOf(t.right)
    ensures forall x :: x in MapOf(t.left) ==> x !in MapOf(t.right)
  {
  }

  /** A key that compares below the root of a search tree lies nowhere but in its left subtree. */
  lemma Side<V>(t: Tree<V>, k: Key, cmp: (Key, Key) -> int)
    requires TotalOrder(cmp) && t.Node? && IsBst(t, cmp)
    ensures cmp(k, t.key) < 0 ==> k !in MapOf(t.right) && k != t.key
    ensures cmp(k, t.key) > 0 ==> k !in MapOf(t.left) && k != t.key
  {
  }

  // How the mapping of a node, `(ml + mr)[key := d]`, changes when one subtree's mapping changes.

  lemma UpdateLeft<V>(ml: map<Key, V>, mr: map<Key, V>, key: Key, d: V, k: Key, v: V)
    requires k !in mr && k != key
    ensures (ml[k := v] + mr)[key := d] == (ml + mr)[key := d][k := v]
  {
  }

  lemma UpdateRight<V>(ml: map<Key, V>, mr: map<Key, V>, key: Key, d: V, k: Key, v: V)
    requires k != key
    ensures (ml + mr[k := v])[key := d] == (ml + mr)[key := d][k := v]
  {
  }

  lemma RemoveLeft<V>(ml: map<Key, V>, mr: map<Key, V>, key: Key, d: V, k: Key)
    requires k !in mr && k != key
    ensures ((ml - {k}) + mr)[key := d] == (ml + mr)[key := d] - {k}
  {
  }

  lemma RemoveRight<V>(ml: map<Key, V>, mr: map<Key, V>, key: Key, d: V, k: Key)
    requires k !in ml && k != key
    ensures (ml + (mr - {k}))[key := d] == (ml + mr)[key := d] - {k}
  {
  }

  lemma RemoveRoot<V>(ml: map<Key, V>, mr: map<Key, V>, key: Key, d: V)
    requires key !in ml && key !in mr
    ensures ml.Keys * mr.Keys == {} ==> ml + mr == (ml + mr)[key := d] - {key}
    ensures mr == map[] ==> ml == (ml + mr)[key := d] - {key}
    ensures ml == map[] ==> mr == (ml + mr)[key := d] - {key}
  {
  }

  lemma RelabelLeft<V>(ml: map<Key, V>, mr: map<Key, V>, key: Key, d: V, hi: Key, lo: Key, lv: V)
    requires hi !in mr && lo !in mr && hi != key && lo != key
    ensures ((ml - {hi})[lo := lv] + mr)[key := d] == ((ml + mr)[key := d] - {hi})[lo := lv]
  {
  }

  lemma RelabelRight<V>(ml: map<Key, V>, mr: map<Key, V>, key: Key, d: V, hi: Key, lo: Key, lv: V)
    requires hi !in ml && lo !in ml && hi != key && lo != key
    ensures (ml + (mr - {hi})[lo := lv])[key := d] == ((ml + mr)[key := d] - {hi})[lo := lv]
  {
  }

  lemma RelabelRoot<V>(ml: map<Key, V>, mr: map<Key, V>, hi: Key, d: V, lo: Key, lv: V)
    requires hi !in ml && hi !in mr
    ensures (ml + mr)[lo := lv] == ((ml + mr)[hi := d] - {hi})[lo := lv]
  {
  }

  /**
   * buscar_nodo (abb.c:59-69) as a function: go left when the key compares below the node's,
   * right when above, stop at an equal key or at the bottom.  The result is the subtree
   * rooted at the key, or Nil.
   */
  function Find<V>(t: Tree<V>, k: Key, cmp: (Key, Key) -> int): Tree<V>
  {
    match t
    case Nil => Nil
    case Node(l, key, _, r) =>
      if cmp(k, key) < 0 then Find(l, k, cmp)
      else if cmp(k, key) > 0 then Find(r, k, cmp)
      else t
  }

  /** The search finds exactly the keys the tree holds, with their data. */
  lemma {:induction false} FindSpec<V>(t: Tree<V>, k: Key, cmp: (Key, Key) -> int)
    requires TotalOrder(cmp) && IsBst(t, cmp)
    ensures Find(t, k, cmp).Node? <==> k in MapOf(t)
    ensures Find(t, k, cmp).Node? ==>
      && Find(t, k, cmp).key == k && Find(t, k, cmp).data == MapOf(t)[k]
      && IsBst(Find(t, k, cmp), cmp)
      && forall x :: x in MapOf(Find(t, k, cmp)) ==> x in MapOf(t) && MapOf(t)[x] == MapOf(Find(t, k, cmp))[x]
  {
    match t
    case Nil =>
    case Node(l, key, v, r) =>
      MapOfNode(t, cmp);
      if cmp(k, key) < 0 {
        FindSpec(l, k, cmp);
        Side(t, k, cmp);
      } else if cmp(k, key) > 0 {
        FindSpec(r, k, cmp);
        Side(t, k, cmp);
      }
  }

  /** Searching the whole tree for a key below the node found for `k` ends where searching that node does. */
  lemma {:induction false} FindDescends<V>(t: Tree<V>, k: Key, x: Key, cmp: (Key, Key) -> int)
    requires TotalOrder(cmp) && IsBst(t, cmp) && x in MapOf(Find(t, k, cmp))
    ensures Find(t, x, cmp) == Find(Find(t, k, cmp), x, cmp)
  {
    match t
    case Nil =>
    case Node(l, key, v, r) =>
      if cmp(k, key) < 0 {
        FindSpec(l, k, cmp);
        assert cmp(x, key) < 0;
        FindDescends(l, k, x, cmp);
      } else if cmp(k, key) > 0 {
        FindSpec(r, k, cmp);
        assert cmp(x, key) > 0;
        FindDescends(r, k, x, cmp);
      }
  }

  /**
   * abb_guardar (abb.c:71-93) on the tree value: the data of an existing key is replaced in
   * place; a new key becomes a leaf where the search fell off the tree.
   */
  function Insert<V>(t: Tree<V>, k: Key, v: V, cmp: (Key, Key) -> int): Tree<V>
  {
    match t
    case Nil => Node(Nil, k, v, Nil)
    case Node(l, key, d, r) =>
      if cmp(k, key) < 0 then Node(Insert(l, k, v, cmp), key, d, r)
      else if cmp(k, key) > 0 then Node(l, key, d, Insert(r, k, v, cmp))
      else Node(l, key, v, r)
  }

  /** Storing maps `k` to `v` and leaves every other key alone; a new key adds one node. */
  lemma {:induction false} InsertEntries<V>(t: Tree<V>, k: Key, v: V, cmp: (Key, Key) -> int)
    requires TotalOrder(cmp) && IsBst(t, cmp)
    ensures MapOf(Insert(t, k, v, cmp)) == MapOf(t)[k := v]
    ensures Size(Insert(t, k, v, cmp)) == if k in MapOf(t) then Size(t) else Size(t) + 1
  {
    match t
    case Nil =>
    case Node(l, key, d, r) =>
      MapOfNode(t, cmp);
      Side(t, k, cmp);
      if cmp(k, key) < 0 {
        InsertEntries(l, k, v, cmp);
        UpdateLeft(MapOf(l), MapOf(r), key, d, k, v);
      } else if cmp(k, key) > 0 {
        InsertEntries(r, k, v, cmp);
        UpdateRight(MapOf(l), MapOf(r), key, d, k, v);
      }
  }

  /** Storing keeps the search-tree property and maps `k` to `v`, leaving every other key alone. */
  lemma {:induction false} InsertSpec<V>(t: Tree<V>, k: Key, v: V, cmp: (Key, Key) -> int)
    requires TotalOrder(cmp) && IsBst(t, cmp)
    ensures IsBst(Insert(t, k, v, cmp), cmp)
    ensures MapOf(Insert(t, k, v, cmp)) == MapOf(t)[k := v]
    ensures Size(Insert(t, k, v, cmp)) == if k in MapOf(t) then Size(t) else Size(t) + 1
  {
    InsertEntries(t, k, v, cmp);
    match t
    case Nil =>
    case Node(l, key, d, r) =>
      if cmp(k, key) < 0 {
        InsertSpec(l, k, v, cmp);
      } else if cmp(k, key) > 0 {
        InsertSpec(r, k, v, cmp);
      }
  }

  /** Whether the node for `k` has both children: the two-children case of abb_borrar. */
  predicate HasTwoChildren<V>(t: Tree<V>)
  {
    t.Node? && t.left.Node? && t.right.Node?
  }

  /**
   * The no-or-one-child case of abb_borrar (abb.c:122-134): the node for `k` is replaced by
   * its only child, or by nothing.
   */
  function Unlink<V>(t: Tree<V>, k: Key, cmp: (Key, Key) -> int): Tree<V>
    requires !HasTwoChildren(Find(t, k, cmp))
  {
    match t
    case Nil => Nil
    case Node(l, key, d, r) =>
      if cmp(k, key) < 0 then Node(Unlink(l, k, cmp), key, d, r)
      else if cmp(k, key) > 0 then Node(l, key, d, Unlink(r, k, cmp))
      else if l.Nil? then r
      else l
  }

  /** Unlinking keeps the search-tree property and removes `k` and nothing else. */
  lemma {:induction false} UnlinkSpec<V>(t: Tree<V>, k: Key, cmp: (Key, Key) -> int)
    requires TotalOrder(cmp) && IsBst(t, cmp) && !HasTwoChildren(Find(t, k, cmp))
    ensures IsBst(Unlink(t, k, cmp), cmp)
    ensures MapOf(Unlink(t, k, cmp)) == MapOf(t) - {k}
    ensures Size(Unlink(t, k, cmp)) == if k in MapOf(t) then Size(t) - 1 else Size(t)
  {    match t
    case Nil =>
    case Node(l, key, d, r) =>
      MapOfNode(t, cmp);
      Side(t, k, cmp);
      if cmp(k, key) < 0 {
        UnlinkSpec(l, k, cmp);
        RemoveLeft(MapOf(l), MapOf(r), key, d, k);
      } else if cmp(k, key) > 0 {
        UnlinkSpec(r, k, cmp);
        RemoveRight(MapOf(l), MapOf(r), key, d, k);
      } else {
        RemoveRoot(MapOf(l), MapOf(r), key, d);
      }
  }


  /** The node the right-child walk of abb_borrar (abb.c:138-143) reaches. */
  function Rightmost<V>(t: Tree<V>): (m: Tree<V>)
    requires t.Node?
    ensures m.Node?
  {
    if t.right.Nil? then t else Rightmost(t.right)
  }

  /** The rightmost node holds the largest key, with its data, and has no right child. */
  lemma {:induction false} RightmostSpec<V>(t: Tree<V>, cmp: (Key, Key) -> int)
    requires TotalOrder(cmp) && t.Node? && IsBst(t, cmp)
    ensures Rightmost(t).Node? && Rightmost(t).right.Nil?
    ensures Rightmost(t).key in MapOf(t) && MapOf(t)[Rightmost(t).key] == Rightmost(t).data
    ensures forall x :: x in MapOf(t) ==> cmp(x, Rightmost(t).key) <= 0
    ensures Find(t, Rightmost(t).key, cmp) == Rightmost(t)
  {
    MapOfNode(t, cmp);
    var m := Rightmost(t);
    if t.right.Nil? {
      assert cmp(m.key, m.key) == 0;
      forall x | x in MapOf(t) ensures cmp(x, m.key) <= 0 {
        if x != m.key {
          assert x in MapOf(t.left);
        }
      }
    } else {
      RightmostSpec(t.right, cmp);
      assert cmp(m.key, t.key) > 0;
      forall x | x in MapOf(t) ensures cmp(x, m.key) <= 0 {
        if x == t.key {
        } else if x in MapOf(t.left) {
          Below(cmp, x, t.key, m.key);
        }
      }
    }
  }

  /**
   * The rightmost node of the left subtree of the node for `k` is the key just before `k`:
   * every key of the whole tree below `k` is at most it.
   */
  lemma {:induction false} PredecessorSpec<V>(t: Tree<V>, k: Key, cmp: (Key, Key) -> int)
    requires TotalOrder(cmp) && IsBst(t, cmp) && HasTwoChildren(Find(t, k, cmp))
    ensures forall x :: x in MapOf(t) && cmp(x, k) < 0 ==> cmp(x, Rightmost(Find(t, k, cmp).left).key) <= 0
  {
    var f := Find(t, k, cmp);
    var p := Rightmost(f.left).key;
    match t
    case Nil =>
    case Node(l, key, d, r) =>
      MapOfNode(t, cmp);
      if cmp(k, key) < 0 {
        PredecessorSpec(l, k, cmp);
        forall x | x in MapOf(t) && cmp(x, k) < 0 ensures cmp(x, p) <= 0 {
          if x == key || x in MapOf(r) {
            AtMostBelow(cmp, key, x, k);
          }
        }
      } else if cmp(k, key) > 0 {
        PredecessorSpec(r, k, cmp);
        FindSpec(r, k, cmp);
        RightmostSpec(f.left, cmp);
        assert cmp(p, key) > 0;
        forall x | x in MapOf(t) && cmp(x, k) < 0 ensures cmp(x, p) <= 0 {
          if x == key {
          } else if x in MapOf(l) {
            Below(cmp, x, key, p);
          }
        }
      } else {
        RightmostSpec(l, cmp);
        forall x | x in MapOf(t) && cmp(x, k) < 0 ensures cmp(x, p) <= 0 {
          assert x !in MapOf(r);
        }
      }
  }

  /**
   * The relabelling of abb_borrar (abb.c:150-152): the node for `hi` takes key `lo` and data
   * `lv`, keeping its children.
   */
  function Relabel<V>(t: Tree<V>, hi: Key, lo: Key, lv: V, cmp: (Key, Key) -> int): Tree<V>
  {
    match t
    case Nil => Nil
    case Node(l, key, d, r) =>
      if cmp(hi, key) < 0 then Node(Relabel(l, hi, lo, lv, cmp), key, d, r)
      else if cmp(hi, key) > 0 then Node(l, key, d, Relabel(r, hi, lo, lv, cmp))
      else Node(l, lo, lv, r)
  }

  /** Relabelling `hi` with an absent key `lo` trades the entry of `hi` for `lo := lv`. */
  lemma {:induction false} RelabelEntries<V>(t: Tree<V>, hi: Key, lo: Key, lv: V, cmp: (Key, Key) -> int)
    requires TotalOrder(cmp) && IsBst(t, cmp) && hi in MapOf(t) && lo !in MapOf(t)
    ensures MapOf(Relabel(t, hi, lo, lv, cmp)) == (MapOf(t) - {hi})[lo := lv]
    ensures Size(Relabel(t, hi, lo, lv, cmp)) == Size(t)
  {
    match t
    case Node(l, key, d, r) =>
      MapOfNode(t, cmp);
      Side(t, hi, cmp);
      if cmp(hi, key) < 0 {
        RelabelEntries(l, hi, lo, lv, cmp);
        RelabelLeft(MapOf(l), MapOf(r), key, d, hi, lo, lv);
      } else if cmp(hi, key) > 0 {
        RelabelEntries(r, hi, lo, lv, cmp);
        RelabelRight(MapOf(l), MapOf(r), key, d, hi, lo, lv);
      } else {
        RelabelRoot(MapOf(l), MapOf(r), hi, d, lo, lv);
      }
  }

  /**
   * Relabelling `hi` with a smaller absent key `lo` that no key of the tree falls between keeps
   * the search-tree property, and trades the entry of `hi` for `lo := lv`.
   */
  lemma {:induction false} RelabelSpec<V>(t: Tree<V>, hi: Key, lo: Key, lv: V, cmp: (Key, Key) -> int)
    requires TotalOrder(cmp) && IsBst(t, cmp) && hi in MapOf(t) && lo !in MapOf(t) && cmp(lo, hi) < 0
    requires forall x :: x in MapOf(t) && cmp(x, hi) < 0 ==> cmp(x, lo) < 0
    ensures IsBst(Relabel(t, hi, lo, lv, cmp), cmp)
    ensures MapOf(Relabel(t, hi, lo, lv, cmp)) == (MapOf(t) - {hi})[lo := lv]
    ensures Size(Relabel(t, hi, lo, lv, cmp)) == Size(t)
  {
    RelabelEntries(t, hi, lo, lv, cmp);
    match t
    case Node(l, key, d, r) =>
      MapOfNode(t, cmp);
      Side(t, hi, cmp);
      if cmp(hi, key) < 0 {
        RelabelSpec(l, hi, lo, lv, cmp);
        Below(cmp, lo, hi, key);
        forall x | x in MapOf(Relabel(l, hi, lo, lv, cmp)) ensures cmp(x, key) < 0 {
          if x != lo {
            assert x in MapOf(l);
          }
        }
      } else if cmp(hi, key) > 0 {
        RelabelSpec(r, hi, lo, lv, cmp);
        assert cmp(lo, key) > 0;
        forall x | x in MapOf(Relabel(r, hi, lo, lv, cmp)) ensures cmp(x, key) > 0 {
          if x != lo {
            assert x in MapOf(r);
          }
        }
      } else {
        forall x | x in MapOf(r) ensures cmp(x, lo) > 0 {
          Transitive(cmp, x, hi, lo);
        }
      }
  }

  /** The keys of a tree in in-order sequence. */
  function KeysInOrder<V>(t: Tree<V>): seq<Key>
  {
    match t
    case Nil => []
    case Node(l, k, _, r) => KeysInOrder(l) + [k] + KeysInOrder(r)
  }

  /** The entries of a tree, key with data, in in-order sequence. */
  function Entries<V>(t: Tree<V>): seq<(Key, V)>
  {
    match t
    case Nil => []
    case Node(l, k, v, r) => Entries(l) + [(k, v)] + Entries(r)
  }

  ghost predicate StrictlyAscending(s: seq<Key>, cmp: (Key, Key) -> int)
  {
    forall i, j :: 0 <= i < j < |s| ==> cmp(s[i], s[j]) < 0
  }

  /** In-order lists every key of a search tree once, in strictly ascending order. */
  lemma {:induction false} InOrderSorted<V>(t: Tree<V>, cmp: (Key, Key) -> int)
    requires TotalOrder(cmp) && IsBst(t, cmp)
    ensures StrictlyAscending(KeysInOrder(t), cmp)
    ensures forall x :: x in KeysInOrder(t) <==> x in MapOf(t)
  {
    match t
    case Nil =>
    case Node(l, k, v, r) =>
      InOrderSorted(l, cmp);
      InOrderSorted(r, cmp);
      MapOfNode(t, cmp);
      var s, a, b := KeysInOrder(t), KeysInOrder(l), KeysInOrder(r);
      forall i, j | 0 <= i < j < |s| ensures cmp(s[i], s[j]) < 0 {
        if j < |a| {
        } else if i < |a| && j == |a| {
          assert s[i] == a[i] && a[i] in MapOf(l);
        } else if i < |a| {
          assert s[i] == a[i] && s[j] == b[j - |a| - 1];
          assert s[i] in MapOf(l) && s[j] in MapOf(r);
          Below(cmp, s[i], k, s[j]);
        } else if i == |a| {
          assert s[j] == b[j - |a| - 1] && s[j] in MapOf(r);
        } else {
          assert s[i] == b[i - |a| - 1] && s[j] == b[j - |a| - 1];
        }
      }
  }

  /**
   * The reference walk: `visit` is called on the entries of `s` from the front and the walk
   * stops after the first call that answers false.  The result tells whether every call
   * answered true, and lists the entries visited.
   */
  function Visited<V>(s: seq<(Key, V)>, visit: (Key, V) -> bool): (bool, seq<(Key, V)>)
  {
    if s == [] then (true, [])
    else if !visit(s[0].0, s[0].1) then (false, [s[0]])
    else var rest := Visited(s[1..], visit); (rest.0, [s[0]] + rest.1)
  }

  /** Walking `a + b` walks `a`, then `b` only when `a` was walked to its end. */
  lemma {:induction false} VisitedAppend<V>(a: seq<(Key, V)>, b: seq<(Key, V)>, visit: (Key, V) -> bool)
    ensures Visited(a, visit).0 ==> Visited(a, visit).1 == a
    ensures Visited(a + b, visit) ==
      if Visited(a, visit).0 then (Visited(b, visit).0, a + Visited(b, visit).1) else Visited(a, visit)
  {
    if a == [] {
      assert a + b == b;
      assert a + Visited(b, visit).1 == Visited(b, visit).1;
    } else {
      assert (a + b)[0] == a[0];
      if visit(a[0].0, a[0].1) {
        assert (a + b)[1..] == a[1..] + b;
        VisitedAppend(a[1..], b, visit);
        var ra, rb := Visited(a[1..], visit), Visited(b, visit);
        if ra.0 {
          assert [a[0]] + (a[1..] + rb.1) == a + rb.1;
        }
      }
    }
  }

  /**
   * _abb_in_order (abb.c:218-226): walk the left subtree, visit the node, walk the right
   * subtree, and stop as soon as anything answers false.
   */
  function Walk<V>(t: Tree<V>, visit: (Key, V) -> bool): (bool, seq<(Key, V)>)
  {
    match t
    case Nil => (true, [])
    case Node(l, k, v, r) =>
      var left := Walk(l, visit);
      if !left.0 then left
      else if !visit(k, v) then (false, left.1 + [(k, v)])
      else var right := Walk(r, visit); (right.0, left.1 + [(k, v)] + right.1)
  }

  /** The recursive walk makes exactly the calls of the reference walk over the in-order entries. */
  lemma {:induction false} WalkIsInOrder<V>(t: Tree<V>, visit: (Key, V) -> bool)
    ensures Walk(t, visit) == Visited(Entries(t), visit)
  {
    match t
    case Nil =>
    case Node(l, k, v, r) =>
      WalkIsInOrder(l, visit);
      WalkIsInOrder(r, visit);
      var el, er := Entries(l), Entries(r);
      assert Entries(t) == el + ([(k, v)] + er);
      VisitedAppend(el, [(k, v)] + er, visit);
      VisitedAppend([(k, v)], er, visit);
      var vl, vr := Visited(el, visit), Visited(er, visit);
      if vl.0 && visit(k, v) {
        assert el + ([(k, v)] + vr.1) == vl.1 + [(k, v)] + vr.1;
      }
  }

  /**
   * `abb_t`: `root` is `raiz`, `count` is `cantidad`, `cmp` the comparison.  `hasDestructor`
   * records whether a `destruir_dato` was given; the data it is called on are logged in `Destroyed`.
   */
  class SearchTree<V> {
    var root: Tree<V>
    var count: nat
    const cmp: (Key, Key) -> int
    const hasDestructor: bool
    ghost var Destroyed: seq<V>

    ghost predicate Valid()
      reads this
    {
      TotalOrder(cmp) && IsBst(root, cmp) && count == Size(root)
    }

    /** abb_crear (abb.c:47-57). */
    constructor (cmp: (Key, Key) -> int, hasDestructor: bool)
      requires TotalOrder(cmp)
      ensures Valid() && MapOf(root) == map[] && Destroyed == []
      ensures this.cmp == cmp && this.hasDestructor == hasDestructor
    {
      root := Nil;
      count := 0;
      this.cmp := cmp;
      this.hasDestructor := hasDestructor;
      Destroyed := [];
    }

    /** abb_cantidad (abb.c:158-160): the number of keys stored. */
    function Count(): (n: nat)
      requires Valid()
      reads this
      ensures n == |MapOf(root)|
    {
      SizeIsCount(root, cmp);
      count
    }

    /**
     * buscar_nodo (abb.c:59-69): walk down from the root, left below a node's key and right
     * above it, until an equal key or the bottom.  The result is the node for `k`, or Nil.
     */
    method Search(k: Key) returns (found: Tree<V>)
      requires Valid()
      ensures found == Find(root, k, cmp)
      ensures found.Node? <==> k in MapOf(root)
      ensures found.Node? ==> found.key == k && found.data == MapOf(root)[k]
    {
      found := root;
      while found.Node?
        invariant Find(found, k, cmp) == Find(root, k, cmp)
        decreases found
      {
        if cmp(k, found.key) < 0 {
          found := found.left;
        } else if cmp(k, found.key) > 0 {
          found := found.right;
        } else {
          break;
        }
      }
      FindSpec(root, k, cmp);
    }

    /**
     * abb_guardar (abb.c:71-93): an existing key has its data replaced, after the destructor
     * ran on the old data; a new key becomes a leaf and the count grows by one.
     */
    method Put(k: Key, v: V)
      requires Valid()
      modifies this
      ensures Valid() && MapOf(root) == MapOf(old(root))[k := v]
      ensures count == if k in MapOf(old(root)) then old(count) else old(count) + 1
      ensures Destroyed == old(Destroyed) + if hasDestructor && k in MapOf(old(root)) then [MapOf(old(root))[k]] else []
    {
      var found := Search(k);
      InsertSpec(root, k, v, cmp);
      if found.Node? {
        if hasDestructor {
          Destroyed := Destroyed + [found.data];
        }
        root := Insert(root, k, v, cmp);
        return;
      }
      root := Insert(root, k, v, cmp);
      count := count + 1;
    }

    /** abb_obtener (abb.c:95-102): the data of `k`, or nothing when absent. */
    method Get(k: Key) returns (r: Option<V>)
      requires Valid()
      ensures r == if k in MapOf(root) then Some(MapOf(root)[k]) else None
    {
      var found := Search(k);
      if found.Nil? {
        return None;
      }
      return Some(found.data);
    }

    /** abb_pertenece (abb.c:104-111). */
    method Contains(k: Key) returns (b: bool)
      requires Valid()
      ensures b <==> k in MapOf(root)
    {
      var found := Search(k);
      return found.Node?;
    }

    /**
     * abb_borrar (abb.c:113-156): nothing for an absent key.  A node with at most one child is
     * replaced by that child.  A node with two children takes the key and data of the rightmost
     * node of its left subtree, after that node was removed by a recursive call.  The data
     * removed is returned, not destroyed.
     */
    method Remove(k: Key) returns (r: Option<V>)
      requires Valid()
      modifies this
      ensures Valid() && MapOf(root) == MapOf(old(root)) - {k}
      ensures r == if k in MapOf(old(root)) then Some(MapOf(old(root))[k]) else None
      ensures count == if k in MapOf(old(root)) then old(count) - 1 else old(count)
      ensures Destroyed == old(Destroyed)
      decreases if HasTwoChildren(Find(root, k, cmp)) then 1 else 0
    {
      var found := Search(k);
      if found.Nil? {
        return None;
      }
      r := Some(found.data);
      if found.left.Nil? || found.right.Nil? {
        UnlinkSpec(root, k, cmp);
        root := Unlink(root, k, cmp);
        count := count - 1;
        return;
      }
      var pred := found.left;
      while pred.right.Node?
        invariant pred.Node? && Rightmost(pred) == Rightmost(found.left)
        decreases pred
      {
        pred := pred.right;
      }
      var predKey, predData := pred.key, pred.data;
      ghost var before := MapOf(root);
      RemovalFacts(root, k, cmp);
      var _ := Remove(predKey);
      RelabelAfterRemoval(before, root, k, predKey, predData, cmp);
      root := Relabel(root, k, predKey, predData, cmp);
    }

    /** abb_in_order (abb.c:228-230): the calls the in-order walk makes, in order. */
    method InOrder(visit: (Key, V) -> bool) returns (calls: seq<(Key, V)>)
      requires Valid()
      ensures calls == Visited(Entries(root), visit).1
    {
      WalkIsInOrder(root, visit);
      calls := Walk(root, visit).1;
    }
  }

  /**
   * What the two-children case of abb_borrar relies on: the rightmost node of the left subtree
   * of the node for `k` is what a search for its key finds, it has at most one child, its key
   * is the one just before `k`, and its entry is an entry of the tree.
   */
  lemma RemovalFacts<V>(t: Tree<V>, k: Key, cmp: (Key, Key) -> int)
    requires TotalOrder(cmp) && IsBst(t, cmp) && HasTwoChildren(Find(t, k, cmp))
    ensures var f := Find(t, k, cmp); var p := Rightmost(f.left);
      && k in MapOf(t) && p.key in MapOf(t) && MapOf(t)[p.key] == p.data
      && cmp(p.key, k) < 0
      && Find(t, p.key, cmp) == p && !HasTwoChildren(p)
      && forall x :: x in MapOf(t) && cmp(x, k) < 0 ==> cmp(x, p.key) <= 0
  {
    var f := Find(t, k, cmp);
    FindSpec(t, k, cmp);
    MapOfNode(f, cmp);
    RightmostSpec(f.left, cmp);
    var p := Rightmost(f.left);
    assert cmp(p.key, k) < 0;
    FindDescends(t, k, p.key, cmp);
    PredecessorSpec(t, k, cmp);
  }

  /**
   * The end of the two-children case of abb_borrar (abb.c:149-152): once the entry `pk`, the
   * one just before `k`, is gone from the mapping `m`, giving its key and data to the node for
   * `k` removes `k` and nothing else.
   */
  lemma RelabelAfterRemoval<V>(m: map<Key, V>, after: Tree<V>, k: Key, pk: Key, pd: V, cmp: (Key, Key) -> int)
    requires TotalOrder(cmp) && IsBst(after, cmp) && MapOf(after) == m - {pk}
    requires k in m && pk in m && m[pk] == pd && cmp(pk, k) < 0
    requires forall x :: x in m && cmp(x, k) < 0 ==> cmp(x, pk) <= 0
    ensures IsBst(Relabel(after, k, pk, pd, cmp), cmp)
    ensures MapOf(Relabel(after, k, pk, pd, cmp)) == m - {k}
    ensures Size(Relabel(after, k, pk, pd, cmp)) == Size(after)
  {
    forall x | x in MapOf(after) && cmp(x, k) < 0 ensures cmp(x, pk) < 0 {
      assert x != pk;
    }
    RelabelSpec(after, k, pk, pd, cmp);
    Restore(m, k, pk, pd);
  }

  lemma Restore<V>(m: map<Key, V>, k: Key, pk: Key, pd: V)
    requires pk in m && m[pk] == pd && pk != k
    ensures ((m - {pk}) - {k})[pk := pd] == m - {k}
  {
  }

  /**
   * The keys the stacked nodes still owe, top of the stack first: each node's own key, then
   * the keys of its right subtree.
   */
  function Pending<V>(s: seq<Tree<V>>): seq<Key>
  {
    if s == [] then []
    else
      var top := s[|s| - 1];
      (if top.Node? then [top.key] + KeysInOrder(top.right) else []) + Pending(s[..|s| - 1])
  }

  /** Every entry of an iterator's stack is a node. */
  ghost predicate AllNodes<V>(s: seq<Tree<V>>)
  {
    forall i :: 0 <= i < |s| ==> s[i].Node?
  }

  /** Pushing node `n` puts its key and then its right subtree's keys ahead of what was owed. */
  lemma PushNode<V>(s: seq<Tree<V>>, n: Tree<V>)
    requires AllNodes(s) && n.Node?
    ensures AllNodes(s + [n])
    ensures Pending(s + [n]) == [n.key] + KeysInOrder(n.right) + Pending(s)
  {
    assert (s + [n])[..|s|] == s;
  }

  /** Popping the top node gives back its key, then its right subtree's keys, then what was owed. */
  lemma PopNode<V>(s: seq<Tree<V>>)
    requires AllNodes(s) && s != []
    ensures AllNodes(s[..|s| - 1]) && s[|s| - 1].Node?
    ensures Pending(s) != [] && Pending(s)[1..] == KeysInOrder(s[|s| - 1].right) + Pending(s[..|s| - 1])
  {
    var top, rest := s[|s| - 1], s[..|s| - 1];
    assert Pending(s) == [top.key] + KeysInOrder(top.right) + Pending(rest);
    DropHead(top.key, KeysInOrder(top.right), Pending(rest));
  }

  /** Dropping the head of a sequence that starts with `x`. */
  lemma DropHead<X>(x: X, a: seq<X>, b: seq<X>)
    ensures ([x] + a + b)[1..] == a + b
  {
  }

  /** One step down the left spine: the keys of `n` are those of its left subtree, then the rest. */
  lemma SpineStep<V>(n: Tree<V>, rest: seq<Key>)
    requires n.Node?
    ensures KeysInOrder(n) + rest == KeysInOrder(n.left) + ([n.key] + KeysInOrder(n.right) + rest)
  {
  }

  /**
   * The pushing loops of abb_iter_in_crear (abb.c:180-184) and abb_iter_in_avanzar
   * (abb.c:194-198): stack `t` and its left descendants, so the keys of `t` come first.
   */
  method PushLeft<V>(s: Pila.Stack<Tree<V>>, t: Tree<V>)
    requires s.Valid() && AllNodes(s.Contents)
    modifies s, s.data
    ensures s.Valid() && AllNodes(s.Contents)
    ensures s.data == old(s.data) || fresh(s.data)
    ensures Pending(s.Contents) == KeysInOrder(t) + Pending(old(s.Contents))
  {
    ghost var owed := KeysInOrder(t) + Pending(s.Contents);
    var actual := t;
    while actual.Node?
      invariant s.Valid() && AllNodes(s.Contents)
      invariant s.data == old(s.data) || fresh(s.data)
      invariant owed == KeysInOrder(actual) + Pending(s.Contents)
      decreases actual
    {
      ghost var before := s.Contents;
      s.Push(actual);
      PushNode(before, actual);
      SpineStep(actual, Pending(before));
      actual := actual.left;
    }
  }

  /**
   * The pushes of abb_iter_in_avanzar (abb.c:192-199): when the node left the stack has a
   * right child `t`, stack `t` and its left descendants, so the keys of `t` come next.
   */
  method Descend<V>(s: Pila.Stack<Tree<V>>, t: Tree<V>)
    requires s.Valid() && AllNodes(s.Contents)
    modifies s, s.data
    ensures s.Valid() && AllNodes(s.Contents)
    ensures s.data == old(s.data) || fresh(s.data)
    ensures Pending(s.Contents) == KeysInOrder(t) + Pending(old(s.Contents))
  {
    if t.Node? {
      ghost var rest := s.Contents;
      s.Push(t);
      PushNode(rest, t);
      SpineStep(t, Pending(rest));
      PushLeft(s, t.left);
    }
  }

  /** `abb_iter_t`: the stack of nodes whose keys and right subtrees are still to come. */
  class TreeIterator<V> {
    const stack: Pila.Stack<Tree<V>>

    ghost predicate Valid()
      reads this, stack, stack.data
    {
      stack.Valid() && AllNodes(stack.Contents)
    }

    /** The keys still to be visited, in order. */
    ghost function Remaining(): seq<Key>
      reads this, stack
    {
      Pending(stack.Contents)
    }

    /** abb_iter_in_crear (abb.c:175-187): the iterator starts at the smallest key. */
    constructor (tree: SearchTree<V>)
      requires tree.Valid()
      ensures Valid() && fresh(stack) && fresh(stack.data)
      ensures Remaining() == KeysInOrder(tree.root)
    {
      var s := new Pila.Stack<Tree<V>>();
      PushLeft(s, tree.root);
      stack := s;
    }

    /** abb_iter_in_al_final (abb.c:209-211). */
    function AtEnd(): (b: bool)
      requires Valid()
      reads this, stack, stack.data
      ensures b <==> Remaining() == []
    {
      stack.IsEmpty()
    }

    /** abb_iter_in_ver_actual (abb.c:203-207): the key at the top of the stack, nothing at the end. */
    method Current() returns (r: Option<Key>)
      requires Valid()
      ensures r == if Pending(stack.Contents) == [] then None else Some(Pending(stack.Contents)[0])
    {
      if stack.IsEmpty() {
        return None;
      }
      var top := stack.Peek();
      return Some(top.value.key);
    }

    /**
     * abb_iter_in_avanzar (abb.c:189-201): false at the end; otherwise the top node leaves and
     * its right child with that child's left descendants are stacked.
     */
    method Advance() returns (moved: bool)
      requires Valid()
      modifies stack, stack.data
      ensures Valid()
      ensures moved <==> Pending(old(stack.Contents)) != []
      ensures moved ==> Pending(stack.Contents) == Pending(old(stack.Contents))[1..]
      ensures !moved ==> stack.Contents == old(stack.Contents)
      ensures stack.data == old(stack.data) || fresh(stack.data)
    {
      if stack.IsEmpty() {
        return false;
      }
      ghost var before := stack.Contents;
      var popped := stack.Pop();
      var node := popped.value;
      PopNode(before);
      Descend(stack, node.right);
      return true;
    }
  }
}

/**
 * hash.c: an open-addressing hash table from C strings to opaque values.
 *
 * Slots are VACIO (Empty), OCUPADO (Occupied) or BORRADO (Deleted, a tombstone).
 * Collisions are resolved by linear probing with wraparound from the key's home
 * bucket `FNVHash(key) % capacidad`.  `cantidad` counts occupied slots and `carga`
 * counts occupied slots plus tombstones; the resize thresholds look at `carga`.
 *
 * Platform choices the model fixes: `size_t` is 64 bits wide and `char` is signed,
 * so a key byte at or above 0x80 is sign-extended before it enters the hash.
 */
module Hash {

  import opened Options

  /** The bytes of a C string before its terminating NUL, so none of them is 0. */
  type Key = k: seq<bv8> | 0 !in k witness []

  const InitialCapacity: nat := 10   // TAM_INICIAL
  const MaxLoadPercent: nat := 70    // FACTOR_CARGA_MAX
  const MinLoadPercent: nat := 25    // FACTOR_CARGA_MIN
  const ResizeFactor: nat := 2       // FACTOR_REDIMENSION

  /** The multiplier of FNVHash: the 32-bit FNV offset basis, not the FNV prime. */
  const FnvMultiplier: bv64 := 0x811C9DC5

  // ---------------------------------------------------------------------------
  // FNVHash
  // ---------------------------------------------------------------------------

  /** `(size_t)(*str)` for a signed `char`: bytes from 0x80 up are sign-extended. */
  function Widen(b: bv8): bv64
  {
    if b < 0x80 then b as bv64 else (b as bv64) | 0xFFFF_FFFF_FFFF_FF00
  }

  /** One round of FNVHash: multiply (wrapping at 2^64), then xor the widened byte. */
  function FnvStep(h: bv64, b: bv8): bv64
  {
    (h * FnvMultiplier) ^ Widen(b)
  }

  /** FNVHash as a left fold over the key, starting from 0. */
  function Fnv(key: Key): bv64
  {
    if key == [] then 0 else FnvStep(Fnv(key[..|key| - 1]), key[|key| - 1])
  }

  /** FNVHash (hash.c:42-53): the loop computes the left fold `Fnv`. */
  method FnvHash(key: Key) returns (h: bv64)
    ensures h == Fnv(key)
  {
    h := 0;
    var i := 0;
    while i < |key|
      invariant 0 <= i <= |key|
      invariant h == Fnv(key[..i])
    {
      h := FnvStep(h, key[i]);
      assert key[..i + 1][..i] == key[..i];
      i := i + 1;
    }
    assert key[..i] == key;
  }

  /** Hashing one more byte is one more round: FNVHash is a left fold. */
  lemma FnvAppend(key: Key, b: bv8)
    requires b != 0
    ensures Fnv(key + [b]) == FnvStep(Fnv(key), b)
  {
    assert (key + [b])[..|key|] == key;
  }

  /** The home bucket `FNVHash(clave, strlen(clave)) % capacidad` (hash.c:120, hash.c:146). */
  function Home(key: Key, capacity: nat): (h: nat)
    requires capacity > 0
    ensures h < capacity
  {
    (Fnv(key) as int) % capacity
  }

  // ---------------------------------------------------------------------------
  // Linear probing with wraparound
  // ---------------------------------------------------------------------------

  /** The slot visited after `d` steps from `h`: `n++; if (n == capacidad) n = 0;` done `d` times. */
  function ProbeIndex(h: nat, d: nat, capacity: nat): (i: nat)
    requires h < capacity && d < capacity
    ensures i < capacity
  {
    if h + d < capacity then h + d else h + d - capacity
  }

  /** How many steps the probe from `h` takes to reach slot `i`. */
  function Distance(h: nat, i: nat, capacity: nat): (d: nat)
    requires h < capacity && i < capacity
    ensures d < capacity && ProbeIndex(h, d, capacity) == i
    ensures forall e :: 0 <= e < capacity && ProbeIndex(h, e, capacity) == i ==> e == d
  {
    if i >= h then i - h else i + capacity - h
  }

  // ---------------------------------------------------------------------------
  // Slots and the facts about a slot array
  // ---------------------------------------------------------------------------

  /** `campo_t`: the key and value matter only while the slot is OCUPADO. */
  datatype Slot<V> = Empty | Occupied(key: Key, value: V) | Deleted

  /** The number of OCUPADO slots. */
  function CountOccupied<V>(s: seq<Slot<V>>): (c: nat)
    ensures c <= |s|
  {
    if s == [] then 0
    else CountOccupied(s[..|s| - 1]) + (if s[|s| - 1].Occupied? then 1 else 0)
  }

  /** The number of slots that are not VACIO (OCUPADO or BORRADO). */
  function CountUsed<V>(s: seq<Slot<V>>): (c: nat)
    ensures c <= |s|
  {
    if s == [] then 0
    else CountUsed(s[..|s| - 1]) + (if s[|s| - 1].Empty? then 0 else 1)
  }

  ghost predicate DistinctKeys<V>(s: seq<Slot<V>>)
  {
    forall i, j :: 0 <= i < j < |s| && s[i].Occupied? && s[j].Occupied? ==> s[i].key != s[j].key
  }

  ghost predicate NoTombstones<V>(s: seq<Slot<V>>)
  {
    forall i :: 0 <= i < |s| ==> !s[i].Deleted?
  }

  /** The key-to-value mapping the slot array stands for. */
  ghost function MapOf<V>(s: seq<Slot<V>>): map<Key, V>
  {
    if s == [] then map[]
    else
      var m := MapOf(s[..|s| - 1]);
      match s[|s| - 1]
      case Occupied(k, v) => m[k := v]
      case _ => m
  }

  /**
   * The probe invariant for the key in slot `i`: every slot on the way from the key's
   * home bucket to `i` is non-VACIO, so a probe for the key never stops early.
   */
  ghost predicate Reachable<V>(s: seq<Slot<V>>, i: nat)
    requires i < |s| && s[i].Occupied?
  {
    var h := Home(s[i].key, |s|);
    forall d :: 0 <= d < Distance(h, i, |s|) ==> !s[ProbeIndex(h, d, |s|)].Empty?
  }

  ghost predicate ProbeInvariant<V>(s: seq<Slot<V>>)
  {
    forall i :: 0 <= i < |s| && s[i].Occupied? ==> Reachable(s, i)
  }

  /** A key is in the mapping exactly when some OCUPADO slot holds it. */
  lemma {:induction false} MapOfKeys<V>(s: seq<Slot<V>>, k: Key)
    ensures k in MapOf(s) <==> exists j :: 0 <= j < |s| && s[j].Occupied? && s[j].key == k
  {
    if s != [] {
      var n := |s| - 1;
      MapOfKeys(s[..n], k);
      if k in MapOf(s) {
        if s[n].Occupied? && s[n].key == k {
        } else {
          var j :| 0 <= j < n && s[..n][j].Occupied? && s[..n][j].key == k;
          assert s[j] == s[..n][j];
        }
      }
      if exists j :: 0 <= j < |s| && s[j].Occupied? && s[j].key == k {
        var j :| 0 <= j < |s| && s[j].Occupied? && s[j].key == k;
        if j < n {
          assert s[..n][j] == s[j];
        }
      }
    }
  }

  /** With distinct keys, the mapping sends each stored key to the value in its slot. */
  lemma {:induction false} MapOfValue<V>(s: seq<Slot<V>>, j: nat)
    requires DistinctKeys(s) && j < |s| && s[j].Occupied?
    ensures s[j].key in MapOf(s) && MapOf(s)[s[j].key] == s[j].value
  {
    var n := |s| - 1;
    if j < n {
      assert s[..n][j] == s[j];
      MapOfValue(s[..n], j);
    }
  }

  /** With distinct keys there are as many entries in the mapping as OCUPADO slots. */
  lemma {:induction false} MapOfSize<V>(s: seq<Slot<V>>)
    requires DistinctKeys(s)
    ensures |MapOf(s)| == CountOccupied(s)
  {
    if s != [] {
      var n := |s| - 1;
      MapOfSize(s[..n]);
      if s[n].Occupied? {
        MapOfKeys(s[..n], s[n].key);
      }
    }
  }

  /** Writing key `k` into slot `i` (a fresh slot, or the one that already holds `k`) updates the mapping at `k`. */
  lemma {:induction false} MapOfWrite<V>(s: seq<Slot<V>>, i: nat, k: Key, v: V)
    requires DistinctKeys(s) && i < |s|
    requires if s[i].Occupied? then s[i].key == k else k !in MapOf(s)
    ensures MapOf(s[i := Occupied(k, v)]) == MapOf(s)[k := v]
  {
    var n := |s| - 1;
    var t := s[i := Occupied(k, v)];
    if i == n {
      assert t[..n] == s[..n];
      if s[n].Occupied? {
        MapOfKeys(s[..n], k);
      }
    } else {
      assert t[..n] == s[..n][i := Occupied(k, v)];
      MapOfWrite(s[..n], i, k, v);
    }
  }

  /** Turning the OCUPADO slot `i` into a tombstone removes exactly its key from the mapping. */
  lemma {:induction false} MapOfErase<V>(s: seq<Slot<V>>, i: nat)
    requires DistinctKeys(s) && i < |s| && s[i].Occupied?
    ensures MapOf(s[i := Deleted]) == MapOf(s) - {s[i].key}
  {
    var n := |s| - 1;
    var t := s[i := Deleted];
    if i == n {
      assert t[..n] == s[..n];
      MapOfKeys(s[..n], s[i].key);
    } else {
      assert t[..n] == s[..n][i := Deleted];
      assert s[..n][i] == s[i];
      MapOfErase(s[..n], i);
    }
  }

  /** How the two counters change when one slot is overwritten. */
  lemma {:induction false} CountsAfterWrite<V>(s: seq<Slot<V>>, i: nat, x: Slot<V>)
    requires i < |s|
    ensures CountOccupied(s[i := x]) + (if s[i].Occupied? then 1 else 0)
         == CountOccupied(s) + (if x.Occupied? then 1 else 0)
    ensures CountUsed(s[i := x]) + (if s[i].Empty? then 0 else 1)
         == CountUsed(s) + (if x.Empty? then 0 else 1)
  {
    var n := |s| - 1;
    if i == n {
      assert s[i := x][..n] == s[..n];
    } else {
      assert s[i := x][..n] == s[..n][i := x];
      CountsAfterWrite(s[..n], i, x);
    }
  }

  /** Without tombstones every used slot is an occupied one. */
  lemma {:induction false} NoTombstonesCounts<V>(s: seq<Slot<V>>)
    requires NoTombstones(s)
    ensures CountUsed(s) == CountOccupied(s)
  {
    if s != [] {
      NoTombstonesCounts(s[..|s| - 1]);
    }
  }

  /** A table whose every slot is in use has no VACIO slot left. */
  lemma {:induction false} FullCount<V>(s: seq<Slot<V>>)
    requires forall i :: 0 <= i < |s| ==> !s[i].Empty?
    ensures CountUsed(s) == |s|
  {
    if s != [] {
      FullCount(s[..|s| - 1]);
    }
  }

  /** If `CountUsed < |s|`, then a VACIO slot exists. */
  lemma {:induction false} EmptyCount<V>(s: seq<Slot<V>>)
    ensures CountUsed(s) == |s| <==> forall i :: 0 <= i < |s| ==> !s[i].Empty?
  {
    if s != [] {
      var n := |s| - 1;
      EmptyCount(s[..n]);
      if CountUsed(s) == |s| {
        forall i | 0 <= i < |s| ensures !s[i].Empty? {
          if i < n {
            assert s[..n][i] == s[i];
          }
        }
      } else {
        FullCountConverse(s);
      }
    }
  }

  lemma FullCountConverse<V>(s: seq<Slot<V>>)
    ensures (forall i :: 0 <= i < |s| ==> !s[i].Empty?) ==> CountUsed(s) == |s|
  {
    if forall i :: 0 <= i < |s| ==> !s[i].Empty? {
      FullCount(s);
    }
  }

  /** A probe that has passed `|s|` non-VACIO slots has seen every slot of the table. */
  lemma ProbeCoversTable<V>(s: seq<Slot<V>>, h: nat)
    requires h < |s|
    ensures (forall e :: 0 <= e < |s| ==> !s[ProbeIndex(h, e, |s|)].Empty?) ==> CountUsed(s) == |s|
  {
    if forall e :: 0 <= e < |s| ==> !s[ProbeIndex(h, e, |s|)].Empty? {
      forall i | 0 <= i < |s| ensures !s[i].Empty? {
        var d := Distance(h, i, |s|);
      }
      FullCount(s);
    }
  }

  /** A table with a positive `cantidad` has an OCUPADO slot. */
  lemma {:induction false} SomeOccupied<V>(s: seq<Slot<V>>)
    requires CountOccupied(s) > 0
    ensures exists j :: 0 <= j < |s| && s[j].Occupied?
  {
    var n := |s| - 1;
    if !s[n].Occupied? {
      SomeOccupied(s[..n]);
      var j :| 0 <= j < n && s[..n][j].Occupied?;
      assert s[j] == s[..n][j];
    }
  }

  /** A prefix holds no more OCUPADO slots than the whole table. */
  lemma {:induction false} CountOccupiedPrefix<V>(s: seq<Slot<V>>, j: nat)
    requires j <= |s|
    ensures CountOccupied(s[..j]) <= CountOccupied(s)
  {
    if j < |s| {
      var n := |s| - 1;
      assert s[..j] == s[..n][..j];
      CountOccupiedPrefix(s[..n], j);
    } else {
      assert s[..j] == s;
    }
  }

  /** One step of redimensionar's migration: slot `i` adds its entry, a key not seen before it. */
  lemma MigrateStep<V>(s: seq<Slot<V>>, i: nat)
    requires i < |s| && DistinctKeys(s)
    ensures CountOccupied(s[..i + 1]) == CountOccupied(s[..i]) + (if s[i].Occupied? then 1 else 0)
    ensures CountOccupied(s[..i + 1]) <= CountOccupied(s)
    ensures MapOf(s[..i + 1]) == if s[i].Occupied? then MapOf(s[..i])[s[i].key := s[i].value] else MapOf(s[..i])
    ensures s[i].Occupied? ==> s[i].key !in MapOf(s[..i])
  {
    assert s[..i + 1][..i] == s[..i];
    CountOccupiedPrefix(s, i + 1);
    if s[i].Occupied? {
      MapOfKeys(s[..i], s[i].key);
      forall j | 0 <= j < i && s[..i][j].Occupied?
        ensures s[..i][j].key != s[i].key
      {
        assert s[..i][j] == s[j];
      }
    }
  }

  /**
   * Probing skips tombstones and stops only at VACIO: if the probe for `k` from its home
   * bucket passed `D` slots none of which holds `k` and then met a VACIO slot, no slot holds `k`.
   */
  lemma ProbeMiss<V>(s: seq<Slot<V>>, k: Key, D: nat)
    requires |s| > 0 && ProbeInvariant(s) && D < |s|
    requires s[ProbeIndex(Home(k, |s|), D, |s|)].Empty?
    requires forall e :: 0 <= e < D ==> var x := s[ProbeIndex(Home(k, |s|), e, |s|)]; !(x.Occupied? && x.key == k)
    ensures forall j :: 0 <= j < |s| && s[j].Occupied? ==> s[j].key != k
    ensures k !in MapOf(s)
  {
    var h := Home(k, |s|);
    forall j | 0 <= j < |s| && s[j].Occupied? ensures s[j].key != k {
      var dj := Distance(h, j, |s|);
      assert Reachable(s, j);
      if dj < D {
        assert s[ProbeIndex(h, dj, |s|)] == s[j];
      }
    }
    MapOfKeys(s, k);
  }

  /**
   * Writes that never turn a used slot back into VACIO keep every stored key reachable,
   * provided each newly placed key is itself reachable.  Deleting a key (OCUPADO to
   * BORRADO) is such a write: it never makes another key unreachable.
   */
  lemma ProbeInvariantKept<V>(s: seq<Slot<V>>, t: seq<Slot<V>>)
    requires |s| == |t| > 0 && ProbeInvariant(s)
    requires forall j :: 0 <= j < |s| && !s[j].Empty? ==> !t[j].Empty?
    requires forall j :: 0 <= j < |t| && t[j].Occupied? ==>
               (s[j].Occupied? && s[j].key == t[j].key) || Reachable(t, j)
    ensures ProbeInvariant(t)
  {
    forall i | 0 <= i < |t| && t[i].Occupied? ensures Reachable(t, i) {
      if s[i].Occupied? && s[i].key == t[i].key {
        assert Reachable(s, i);
      }
    }
  }

  // ---------------------------------------------------------------------------
  // The resize policy
  // ---------------------------------------------------------------------------

  /** `(carga * 100) / capacidad`, the integer load percentage both thresholds test. */
  function LoadPercent(load: nat, capacity: nat): nat
    requires capacity > 0
  {
    load * 100 / capacity
  }

  /** hash.c:116: grow before a store when the load reaches 70%. */
  predicate GrowDue(load: nat, capacity: nat)
    requires capacity > 0
  {
    LoadPercent(load, capacity) >= MaxLoadPercent
  }

  /** hash.c:162, as written: shrink before a delete whenever the load is at most 25%, without a floor. */
  predicate ShrinkDueAsWritten(load: nat, capacity: nat)
    requires capacity > 0
  {
    LoadPercent(load, capacity) <= MinLoadPercent
  }

  /** The shrink rule the model runs: as written, but never below TAM_INICIAL. */
  predicate ShrinkDue(load: nat, capacity: nat)
    requires capacity > 0
  {
    ShrinkDueAsWritten(load, capacity) && capacity / ResizeFactor >= InitialCapacity
  }

  /** Below the grow threshold the load is under 70% of the capacity, so a store leaves a VACIO slot. */
  lemma BelowGrowThreshold(load: nat, capacity: nat)
    requires capacity >= 4 && !GrowDue(load, capacity)
    ensures load * 100 < MaxLoadPercent * capacity
    ensures load + 1 < capacity
  {
    var x := load * 100;
    var q := x / capacity;
    var r := x % capacity;
    assert x == q * capacity + r && r < capacity;
    assert q <= 69;
    MulMono(q, 69, capacity);
    assert x < 70 * capacity;
  }

  lemma MulMono(a: nat, b: nat, c: nat)
    requires a <= b
    ensures a * c <= b * c
  {
  }

  /**
   * As written, hash_borrar on a fresh table with no key in it shrinks 10 to 5 to 2; two stores
   * of new keys at capacity 2 stay below the grow threshold and fill both slots; further
   * shrinks reach capacity 1 and 0, where `% capacidad` and `/ capacidad` divide by zero.
   */
  lemma ShrinkWithoutFloor()
    ensures ShrinkDueAsWritten(0, 10) && 10 / ResizeFactor == 5
    ensures ShrinkDueAsWritten(0, 5) && 5 / ResizeFactor == 2
    ensures !GrowDue(0, 2) && !GrowDue(1, 2)
    ensures ShrinkDueAsWritten(0, 2) && 2 / ResizeFactor == 1
    ensures ShrinkDueAsWritten(0, 1) && 1 / ResizeFactor == 0
  {
  }

  /**
   * Once no slot is VACIO, the loop of buscar_campo (hash.c:149-154) never meets its exit:
   * for a key that is absent every slot it can reach keeps the guard true and the break false.
   */
  lemma FullTableProbeNeverStops<V>(s: seq<Slot<V>>, k: Key)
    requires CountUsed(s) == |s| && k !in MapOf(s)
    ensures forall i :: 0 <= i < |s| ==> !s[i].Empty? && !(s[i].Occupied? && s[i].key == k)
  {
    EmptyCount(s);
    MapOfKeys(s, k);
  }

  // ---------------------------------------------------------------------------
  // What one slot update does to the table's invariants
  // ---------------------------------------------------------------------------

  /** A freshly allocated table (every slot VACIO) stands for the empty mapping. */
  lemma {:induction false} EmptyTableFacts<V>(s: seq<Slot<V>>)
    requires forall i :: 0 <= i < |s| ==> s[i].Empty?
    ensures CountUsed(s) == 0 && CountOccupied(s) == 0 && MapOf(s) == map[]
    ensures DistinctKeys(s) && ProbeInvariant(s) && NoTombstones(s)
  {
    if s != [] {
      EmptyTableFacts(s[..|s| - 1]);
    }
  }

  /**
   * Claiming the VACIO slot `i` where the probe for an absent key `k` stopped (hash.c:134-140)
   * keeps the keys distinct and reachable, adds `k` to the mapping and one to both counters.
   */
  lemma InsertKeepsInvariant<V>(s: seq<Slot<V>>, i: nat, k: Key, v: V)
    requires i < |s| && s[i].Empty? && k !in MapOf(s)
    requires DistinctKeys(s) && ProbeInvariant(s)
    requires forall e :: 0 <= e < Distance(Home(k, |s|), i, |s|) ==> !s[ProbeIndex(Home(k, |s|), e, |s|)].Empty?
    ensures DistinctKeys(s[i := Occupied(k, v)]) && ProbeInvariant(s[i := Occupied(k, v)])
    ensures MapOf(s[i := Occupied(k, v)]) == MapOf(s)[k := v]
    ensures CountOccupied(s[i := Occupied(k, v)]) == CountOccupied(s) + 1
    ensures CountUsed(s[i := Occupied(k, v)]) == CountUsed(s) + 1
    ensures NoTombstones(s) ==> NoTombstones(s[i := Occupied(k, v)])
  {
    var t := s[i := Occupied(k, v)];
    MapOfKeys(s, k);
    MapOfWrite(s, i, k, v);
    CountsAfterWrite(s, i, Occupied(k, v));
    var h := Home(k, |s|);
    forall e | 0 <= e < Distance(h, i, |s|) ensures !t[ProbeIndex(h, e, |s|)].Empty? {
      assert ProbeIndex(h, e, |s|) != i;
    }
    assert Reachable(t, i);
    ProbeInvariantKept(s, t);
  }

  /** Replacing the value of the OCUPADO slot holding the key (hash.c:124-127) changes only that key's value. */
  lemma OverwriteKeepsInvariant<V>(s: seq<Slot<V>>, i: nat, v: V)
    requires i < |s| && s[i].Occupied?
    requires DistinctKeys(s) && ProbeInvariant(s)
    ensures DistinctKeys(s[i := Occupied(s[i].key, v)]) && ProbeInvariant(s[i := Occupied(s[i].key, v)])
    ensures MapOf(s[i := Occupied(s[i].key, v)]) == MapOf(s)[s[i].key := v]
    ensures CountOccupied(s[i := Occupied(s[i].key, v)]) == CountOccupied(s)
    ensures CountUsed(s[i := Occupied(s[i].key, v)]) == CountUsed(s)
    ensures NoTombstones(s) ==> NoTombstones(s[i := Occupied(s[i].key, v)])
  {
    var t := s[i := Occupied(s[i].key, v)];
    MapOfWrite(s, i, s[i].key, v);
    CountsAfterWrite(s, i, Occupied(s[i].key, v));
    ProbeInvariantKept(s, t);
  }

  /**
   * Turning an OCUPADO slot into BORRADO (hash.c:170) removes exactly its key, leaves `carga`'s
   * count of used slots alone, and never makes another stored key unreachable.
   */
  lemma EraseKeepsInvariant<V>(s: seq<Slot<V>>, i: nat)
    requires i < |s| && s[i].Occupied?
    requires DistinctKeys(s) && ProbeInvariant(s)
    ensures DistinctKeys(s[i := Deleted]) && ProbeInvariant(s[i := Deleted])
    ensures MapOf(s[i := Deleted]) == MapOf(s) - {s[i].key}
    ensures CountOccupied(s[i := Deleted]) + 1 == CountOccupied(s)
    ensures CountUsed(s[i := Deleted]) == CountUsed(s)
  {
    MapOfErase(s, i);
    CountsAfterWrite(s, i, Deleted);
    ProbeInvariantKept(s, s[i := Deleted]);
  }

  // ---------------------------------------------------------------------------
  // The order in which the iterator visits keys
  // ---------------------------------------------------------------------------

  /** The keys of the OCUPADO slots, in increasing slot order. */
  function Keys<V>(s: seq<Slot<V>>): seq<Key>
  {
    if s == [] then []
    else Keys(s[..|s| - 1]) + (if s[|s| - 1].Occupied? then [s[|s| - 1].key] else [])
  }

  lemma {:induction false} KeysAppend<V>(a: seq<Slot<V>>, b: seq<Slot<V>>)
    ensures Keys(a + b) == Keys(a) + Keys(b)
  {
    if b == [] {
      assert a + b == a;
    } else {
      var n := |b| - 1;
      assert (a + b)[..|a + b| - 1] == a + b[..n];
      KeysAppend(a, b[..n]);
    }
  }

  /** From an OCUPADO slot, the remaining keys start with that slot's key. */
  lemma KeysAt<V>(s: seq<Slot<V>>, p: nat)
    requires p < |s| && s[p].Occupied?
    ensures Keys(s[p..]) == [s[p].key] + Keys(s[p + 1..])
  {
    assert s[p..] == [s[p]] + s[p + 1..];
    KeysAppend([s[p]], s[p + 1..]);
    assert Keys([s[p]]) == [s[p].key] by {
      assert [s[p]][..0] == [];
    }
  }

  /** The scan of hash_iter_avanzar (hash.c:228-235): the first OCUPADO slot from `from` on, or the capacity. */
  method ScanOccupied<V>(t: array<Slot<V>>, from: nat) returns (i: nat)
    requires from <= t.Length
    ensures from <= i <= t.Length
    ensures i < t.Length ==> t[i].Occupied?
    ensures Keys(t[..][from..]) == Keys(t[..][i..])
  {
    i := from;
    while i < t.Length && !t[i].Occupied?
      invariant from <= i <= t.Length
      invariant forall j :: from <= j < i ==> !t[j].Occupied?
    {
      i := i + 1;
    }
    KeysSkip(t[..], from, i);
  }

  /**
   * When the next OCUPADO slot after `p` is at `i` (or there is none and `i == |s|`), the keys from
   * `p` on are the key at `p` followed by the keys from `i` on.
   */
  lemma NextOccupied<V>(s: seq<Slot<V>>, p: nat, i: nat)
    requires p < i <= |s| && s[p].Occupied?
    requires Keys(s[p + 1..]) == Keys(s[i..])
    ensures Keys(s[p..]) != []
    ensures Keys(s[p..])[1..] == if i < |s| then Keys(s[i..]) else []
  {
    KeysAt(s, p);
    if i == |s| {
      assert s[i..] == [];
    }
  }

  /** Slots without a key contribute nothing to the remaining keys. */
  lemma KeysSkip<V>(s: seq<Slot<V>>, a: nat, b: nat)
    requires a <= b <= |s|
    requires forall j :: a <= j < b ==> !s[j].Occupied?
    ensures Keys(s[a..]) == Keys(s[b..])
  {
    assert s[a..] == s[a..b] + s[b..];
    KeysAppend(s[a..b], s[b..]);
    KeysNone(s[a..b]);
  }

  lemma {:induction false} KeysNone<V>(s: seq<Slot<V>>)
    requires forall j :: 0 <= j < |s| ==> !s[j].Occupied?
    ensures Keys(s) == []
  {
    if s != [] {
      KeysNone(s[..|s| - 1]);
    }
  }

  lemma {:induction false} KeysLength<V>(s: seq<Slot<V>>)
    ensures |Keys(s)| == CountOccupied(s)
  {
    if s != [] {
      KeysLength(s[..|s| - 1]);
    }
  }

  lemma {:induction false} KeysMembers<V>(s: seq<Slot<V>>, k: Key)
    ensures k in Keys(s) <==> exists j :: 0 <= j < |s| && s[j].Occupied? && s[j].key == k
  {
    if s != [] {
      var n := |s| - 1;
      KeysMembers(s[..n], k);
      if exists j :: 0 <= j < |s| && s[j].Occupied? && s[j].key == k {
        var j :| 0 <= j < |s| && s[j].Occupied? && s[j].key == k;
        if j < n {
          assert s[..n][j] == s[j];
        }
      }
      if k in Keys(s[..n]) {
        var j :| 0 <= j < n && s[..n][j].Occupied? && s[..n][j].key == k;
        assert s[j] == s[..n][j];
      }
    }
  }

  lemma {:induction false} KeysDistinct<V>(s: seq<Slot<V>>)
    requires DistinctKeys(s)
    ensures forall i, j :: 0 <= i < j < |Keys(s)| ==> Keys(s)[i] != Keys(s)[j]
  {
    if s != [] {
      var n := |s| - 1;
      assert DistinctKeys(s[..n]);
      KeysDistinct(s[..n]);
      if s[n].Occupied? {
        KeysMembers(s[..n], s[n].key);
      }
    }
  }

  /**
   * Walking the slots in index order visits every key of the table exactly once: the keys
   * listed are those of the mapping, without repetition, as many as the mapping holds.
   */
  lemma KeysVisitEachOnce<V>(s: seq<Slot<V>>)
    requires DistinctKeys(s)
    ensures forall k :: k in Keys(s) <==> k in MapOf(s)
    ensures forall i, j :: 0 <= i < j < |Keys(s)| ==> Keys(s)[i] != Keys(s)[j]
    ensures |Keys(s)| == |MapOf(s)|
  {
    forall k ensures k in Keys(s) <==> k in MapOf(s) {
      KeysMembers(s, k);
      MapOfKeys(s, k);
    }
    KeysDistinct(s);
    KeysLength(s);
    MapOfSize(s);
  }

  // ---------------------------------------------------------------------------
  // The table
  // ---------------------------------------------------------------------------

  /** The slot loop of hash_crear and redimensionar (hash.c:69, hash.c:93): a table of VACIO slots. */
  method NewTable<V>(capacity: nat) returns (a: array<Slot<V>>)
    ensures fresh(a) && a.Length == capacity
    ensures forall i :: 0 <= i < capacity ==> a[i].Empty?
  {
    a := new Slot<V>[capacity];
    for i := 0 to capacity
      invariant forall j :: 0 <= j < i ==> a[j].Empty?
    {
      a[i] := Empty;
    }
  }

  /**
   * `hash_t`.  The capacity `capacidad` is the length of `table`; `count` is `cantidad`
   * and `load` is `carga`.  `hasDestructor` records whether a `funcion_destruccion` was
   * given; the values it is called on are logged in `Destroyed`.
   */
  class HashTable<V> {
    var table: array<Slot<V>>
    var count: nat
    var load: nat
    const hasDestructor: bool
    ghost var Contents: map<Key, V>
    ghost var Destroyed: seq<V>

    /**
     * The invariant that holds between any two steps, including in the middle of a rebuild,
     * when `carga` still holds the old table's value and so may exceed the slots in use.
     */
    ghost predicate Inv()
      reads this, table
    {
      && table.Length >= InitialCapacity
      && DistinctKeys(table[..])
      && ProbeInvariant(table[..])
      && count == CountOccupied(table[..])
      && Contents == MapOf(table[..])
      && CountUsed(table[..]) <= load
      && CountUsed(table[..]) < table.Length
    }

    /** The invariant a client sees: in addition, `carga` is exactly the OCUPADO plus BORRADO slots. */
    ghost predicate Valid()
      reads this, table
    {
      Inv() && load == CountUsed(table[..])
    }

    /** hash_crear (hash.c:57-71): capacity TAM_INICIAL, nothing stored, every slot VACIO. */
    constructor (hasDestructor: bool)
      ensures Valid() && fresh(table)
      ensures table.Length == InitialCapacity && count == 0 && load == 0
      ensures forall i :: 0 <= i < table.Length ==> table[i].Empty?
      ensures Contents == map[] && Destroyed == []
      ensures this.hasDestructor == hasDestructor
    {
      var t := NewTable<V>(InitialCapacity);
      EmptyTableFacts(t[..]);
      table := t;
      count := 0;
      load := 0;
      this.hasDestructor := hasDestructor;
      Contents := map[];
      Destroyed := [];
    }

    /**
     * The probe loop shared by hash_guardar (hash.c:120-132) and buscar_campo (hash.c:146-154):
     * from the home bucket, step with wraparound over OCUPADO slots with other keys and over
     * BORRADO slots, and stop at the slot holding `k` or at the first VACIO slot.
     */
    method Probe(k: Key) returns (n: nat)
      requires Inv()
      ensures n < table.Length
      ensures table[n].Empty? || (table[n].Occupied? && table[n].key == k)
      ensures table[n].Empty? <==> k !in Contents
      ensures table[n].Empty? ==>
        forall e :: 0 <= e < Distance(Home(k, table.Length), n, table.Length) ==>
          !table[ProbeIndex(Home(k, table.Length), e, table.Length)].Empty?
    {
      ghost var s := table[..];
      ghost var home := Home(k, table.Length);
      var h := FnvHash(k);
      n := (h as int) % table.Length;
      ghost var d := 0;
      while !table[n].Empty? && !(table[n].Occupied? && table[n].key == k)
        invariant d < |s| && n == ProbeIndex(home, d, |s|)
        invariant forall e :: 0 <= e < d ==>
          var x := s[ProbeIndex(home, e, |s|)]; !x.Empty? && !(x.Occupied? && x.key == k)
        decreases |s| - d
      {
        ProbeCoversTable(s, home);
        n := n + 1;
        if n == table.Length {
          n := 0;
        }
        d := d + 1;
      }
      if table[n].Empty? {
        ProbeMiss(s, k, d);
      } else {
        MapOfKeys(s, k);
      }
    }

    /** buscar_campo (hash.c:145-158): the slot holding `k`, or nothing when the probe meets VACIO. */
    method Find(k: Key) returns (slot: Option<nat>)
      requires Inv()
      ensures slot.None? <==> k !in Contents
      ensures slot.Some? ==> slot.value < table.Length && table[slot.value] == Occupied(k, Contents[k])
    {
      var n := Probe(k);
      if table[n].Empty? {
        return None;
      }
      MapOfValue(table[..], n);
      return Some(n);
    }

    /**
     * hash_guardar (hash.c:115-142).  The grow check reads the load before the store; the store
     * replaces the value of a present key (calling the destructor on the old one) or claims
     * the first VACIO slot on the probe path.  When called from `Resize` the load is stale and
     * may trigger a nested rebuild, exactly as in the C code.
     */
    method Put(k: Key, v: V)
      requires Inv()
      modifies this, table
      ensures Inv()
      ensures Contents == old(Contents)[k := v]
      ensures count == old(count) + (if k in old(Contents) then 0 else 1)
      ensures Destroyed == old(Destroyed) + (if hasDestructor && k in old(Contents) then [old(Contents)[k]] else [])
      ensures if GrowDue(old(load), old(table.Length))
              then fresh(table) && table.Length >= ResizeFactor * old(table.Length) && load == count
              else table == old(table) && load == old(load) + (if k in old(Contents) then 0 else 1)
      ensures old(load == CountUsed(table[..])) ==> load == CountUsed(table[..])
      ensures old(NoTombstones(table[..])) ==> NoTombstones(table[..])
      decreases count, 2
    {
      if LoadPercent(load, table.Length) >= MaxLoadPercent {
        ghost var before := table[..];
        CountOccupiedPrefix(before, |before|);
        assert before[..|before|] == before;
        Resize(table.Length * ResizeFactor);
        NoTombstonesCounts(table[..]);
      } else {
        BelowGrowThreshold(load, table.Length);
      }
      Store(k, v);
    }

    /**
     * The store half of hash_guardar (hash.c:120-141), once the grow check has left room for
     * one more used slot: overwrite the value of a present key, or claim a VACIO slot.
     */
    method Store(k: Key, v: V)
      requires Inv() && CountUsed(table[..]) + 1 < table.Length && CountUsed(table[..]) <= load
      modifies this, table
      ensures Inv() && table == old(table)
      ensures Contents == old(Contents)[k := v]
      ensures count == old(count) + (if k in old(Contents) then 0 else 1)
      ensures load == old(load) + (if k in old(Contents) then 0 else 1)
      ensures CountUsed(table[..]) == old(CountUsed(table[..])) + (if k in old(Contents) then 0 else 1)
      ensures Destroyed == old(Destroyed) + (if hasDestructor && k in old(Contents) then [old(Contents)[k]] else [])
      ensures old(NoTombstones(table[..])) ==> NoTombstones(table[..])
    {
      var n := Probe(k);
      ghost var s := table[..];
      if table[n].Occupied? {
        MapOfValue(s, n);
        OverwriteKeepsInvariant(s, n, v);
        if hasDestructor {
          Destroyed := Destroyed + [table[n].value];
        }
        table[n] := Occupied(k, v);
        assert table[..] == s[n := Occupied(s[n].key, v)];
      } else {
        InsertKeepsInvariant(s, n, k, v);
        table[n] := Occupied(k, v);
        assert table[..] == s[n := Occupied(k, v)];
        count := count + 1;
        load := load + 1;
      }
      Contents := Contents[k := v];
    }

    /**
     * redimensionar (hash.c:89-112): move to a new table of VACIO slots by storing every
     * OCUPADO entry of the old table again with `Put`, then set `carga` to `cantidad`.
     * `cantidad` is reset but `carga` is not, so the stores see the old load.
     */
    method Resize(newCapacity: nat)
      requires Inv() && newCapacity >= InitialCapacity
      modifies this
      ensures Inv() && NoTombstones(table[..])
      ensures fresh(table) && table.Length >= newCapacity
      ensures Contents == old(Contents) && count == old(count) && load == count
      ensures Destroyed == old(Destroyed)
      decreases count, 1
    {
      var oldTable := table;
      ghost var oldSlots := table[..];
      var newTable := NewTable<V>(newCapacity);
      EmptyTableFacts(newTable[..]);
      table := newTable;
      count := 0;
      Contents := map[];
      var i := 0;
      while i < oldTable.Length
        invariant 0 <= i <= oldTable.Length
        invariant oldTable[..] == oldSlots
        invariant Inv() && NoTombstones(table[..])
        invariant fresh(table) && table.Length >= newCapacity
        invariant count == CountOccupied(oldSlots[..i])
        invariant Contents == MapOf(oldSlots[..i])
        invariant Destroyed == old(Destroyed)
      {
        MigrateStep(oldSlots, i);
        if oldTable[i].Occupied? {
          Put(oldTable[i].key, oldTable[i].value);
        }
        i := i + 1;
      }
      assert oldSlots[..i] == oldSlots;
      NoTombstonesCounts(table[..]);
      load := count;
    }

    /** hash_obtener (hash.c:176-180): the stored value, or nothing for an absent key. */
    method Get(k: Key) returns (r: Option<V>)
      requires Valid()
      ensures r == if k in Contents then Some(Contents[k]) else None
    {
      var slot := Find(k);
      if slot.None? {
        return None;
      }
      return Some(table[slot.value].value);
    }

    /** hash_pertenece (hash.c:183-187). */
    method Contains(k: Key) returns (b: bool)
      requires Valid()
      ensures b <==> k in Contents
    {
      var slot := Find(k);
      return slot.Some?;
    }

    /** hash_cantidad (hash.c:190-192): `cantidad` is the number of stored keys. */
    function Size(): (n: nat)
      reads this, table
      requires Valid()
      ensures n == |Contents|
    {
      MapOfSize(table[..]);
      count
    }

    /**
     * hash_borrar (hash.c:161-173), with the shrink rule `ShrinkDue` (no shrink below
     * TAM_INICIAL).  A present key's slot turns BORRADO and its value is returned without
     * calling the destructor, and `cantidad` drops.  Without a shrink `carga` is kept; the shrink's
   * rebuild resets it to the old `cantidad`, dropping every BORRADO slot.  An absent key changes
   * nothing else.
     */
    method Remove(k: Key) returns (r: Option<V>)
      requires Valid()
      modifies this, table
      ensures Valid()
      ensures r == if k in old(Contents) then Some(old(Contents)[k]) else None
      ensures Contents == old(Contents) - {k}
      ensures count == old(count) - (if k in old(Contents) then 1 else 0)
      ensures Destroyed == old(Destroyed)
      ensures if ShrinkDue(old(load), old(table.Length))
              then fresh(table) && table.Length >= old(table.Length) / ResizeFactor && load == old(count)
              else table == old(table) && load == old(load)
    {
      if ShrinkDue(load, table.Length) {
        Resize(table.Length / ResizeFactor);
        NoTombstonesCounts(table[..]);
      }
      var slot := Find(k);
      if slot.None? {
        return None;
      }
      var n := slot.value;
      ghost var s := table[..];
      EraseKeepsInvariant(s, n);
      r := Some(table[n].value);
      table[n] := Deleted;
      assert table[..] == s[n := Deleted];
      count := count - 1;
      Contents := Contents - {k};
    }
  }

  // ---------------------------------------------------------------------------
  // The iterator
  // ---------------------------------------------------------------------------

  /**
   * `hash_iter_t`: `atEnd` stands for `actual == NULL` and `position` for `posicion_actual`.
   * The table must not change while an iterator over it is in use.
   */
  class HashIterator<V> {
    const hash: HashTable<V>
    var atEnd: bool
    var position: nat

    ghost predicate Valid()
      reads this, hash, hash.table
    {
      && hash.Valid()
      && (!atEnd ==> position < hash.table.Length && hash.table[position].Occupied?)
    }

    /** The keys still to be visited, the current one first. */
    ghost function Remaining(): seq<Key>
      reads this, hash, hash.table
      requires Valid()
    {
      if atEnd then [] else Keys(hash.table[..][position..])
    }

    /** hash_iter_crear (hash.c:195-216): at the lowest OCUPADO slot, or at the end when `cantidad == 0`. */
    constructor (hash: HashTable<V>)
      requires hash.Valid()
      ensures this.hash == hash && Valid()
      ensures Remaining() == Keys(hash.table[..])
      ensures atEnd <==> hash.count == 0
    {
      this.hash := hash;
      var t := hash.table;
      if hash.count == 0 {
        atEnd := true;
        position := 0;
        KeysLength(t[..]);
      } else {
        SomeOccupied(t[..]);
        ghost var w :| 0 <= w < t.Length && t[w].Occupied?;
        var i := 0;
        while !t[i].Occupied?
          invariant 0 <= i <= w
          invariant forall j :: 0 <= j < i ==> !t[j].Occupied?
          decreases w - i
        {
          i := i + 1;
        }
        atEnd := false;
        position := i;
        KeysSkip(t[..], 0, i);
        assert t[..] == t[0..];
      }
    }

    /** hash_iter_al_final (hash.c:219-221). */
    method AtEnd() returns (b: bool)
      requires Valid()
      ensures b <==> Remaining() == []
    {
      if !atEnd {
        KeysAt(hash.table[..], position);
      }
      return atEnd;
    }

    /** hash_iter_ver_actual (hash.c:242-245): the current key, or nothing at the end. */
    method Current() returns (k: Option<Key>)
      requires Valid()
      ensures k == if Remaining() == [] then None else Some(Remaining()[0])
    {
      if atEnd {
        return None;
      }
      KeysAt(hash.table[..], position);
      return Some(hash.table[position].key);
    }

    /**
     * hash_iter_avanzar (hash.c:224-239): move to the next higher OCUPADO slot, or to the end.
     * The result is false at the end, and also when this step reaches the end.
     */
    method Advance() returns (moved: bool)
      requires Valid()
      modifies this
      ensures Valid()
      ensures Remaining() == if old(Remaining()) == [] then [] else old(Remaining())[1..]
      ensures moved <==> Remaining() != []
    {
      if atEnd {
        return false;
      }
      ghost var s := hash.table[..];
      var i := ScanOccupied(hash.table, position + 1);
      NextOccupied(s, position, i);
      if i < hash.table.Length {
        position := i;
        KeysAt(s, i);
        assert hash.table[..] == s;
        return true;
      }
      atEnd := true;
      return false;
    }
  }
}

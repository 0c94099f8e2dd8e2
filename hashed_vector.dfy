/** The hashed vector of util/src/util/bst_hashed_vector.c: string keys are
    hashed; the ordered vector holds one slot per hash, in ascending hash
    order, and each slot holds the chain of the keys that share that hash.
    A slot is the `(hash, chain)` pair of `struct bsthv_key_value_t`, the
    same shape as an entry of the sorted map. The hash function (the global
    that bsthv_set_string_hash_func replaces) is a parameter of every
    operation, and the outcome of `malloc` is a parameter where it matters. */
module HashedVector {
  import opened CTypes
  import opened Wrappers
  import opened SeqOps
  import SortedMap

  /** `struct bsthv_value_chain_t` without its `next` link: one key and the
      value stored under it. */
  datatype Binding<V> = Binding(key: string, value: V)

  type Chain<V> = seq<Binding<V>>

  /** `struct bsthv_key_value_t`: a hash and the chain of its keys. */
  type Slot<V> = SortedMap.Entry<Chain<V>>

  /** No key occurs twice in a chain. */
  predicate DistinctKeys<V>(c: Chain<V>)
  {
    forall a, b :: 0 <= a < b < |c| ==> c[a].key != c[b].key
  }

  /** A slot as the hashed vector keeps it: a non-empty chain of distinct
      keys, each of which hashes to the slot's hash. */
  predicate SlotOk<V>(f: string -> U32, s: Slot<V>)
  {
    && |s.value| > 0
    && (forall j :: 0 <= j < |s.value| ==> f(s.value[j].key) == s.hash)
    && DistinctKeys(s.value)
  }

  /** Binding `j` of slot `i` holds `value`, and no binding before it,
      walking the slots in order and each chain from its start, does. */
  predicate FirstHolding<V(==)>(slots: seq<Slot<V>>, i: int, j: int, value: V)
  {
    && 0 <= i < |slots| && 0 <= j < |slots[i].value| && slots[i].value[j].value == value
    && (forall a, b :: 0 <= a < i && 0 <= b < |slots[a].value| ==> slots[a].value[b].value != value)
    && (forall b :: 0 <= b < j ==> slots[i].value[b].value != value)
  }

  /** The slots of a hashed vector built with hash function `f`. */
  predicate WellFormed<V>(f: string -> U32, slots: seq<Slot<V>>)
  {
    SortedMap.Sorted(slots) && forall i :: 0 <= i < |slots| ==> SlotOk(f, slots[i])
  }

  /** The value of the first binding of `k` in a chain. */
  function ChainGet<V>(c: Chain<V>, k: string): (r: Option<V>)
    ensures r.None? <==> forall j :: 0 <= j < |c| ==> c[j].key != k
  {
    if c == [] then None
    else if c[0].key == k then Some(c[0].value)
    else
      var r := ChainGet(c[1..], k);
      assert forall j :: 1 <= j < |c| ==> c[j] == c[1..][j - 1];
      r
  }

  /** Reference lookup, ignoring hashes: the first binding of `k` met when
      walking all chains from the first slot on. */
  function Get<V>(slots: seq<Slot<V>>, k: string): Option<V>
  {
    if slots == [] then None
    else if ChainGet(slots[0].value, k).Some? then ChainGet(slots[0].value, k)
    else Get(slots[1..], k)
  }

  /** Number of keys held: the sum of the chain lengths. */
  function KeyCount<V>(slots: seq<Slot<V>>): nat
  {
    if slots == [] then 0 else |slots[0].value| + KeyCount(slots[1..])
  }

  // ---------------------------------------------------------------------
  // Chains

  lemma {:induction false} ChainGetFound<V>(c: Chain<V>, j: nat)
    requires DistinctKeys(c) && j < |c|
    ensures ChainGet(c, c[j].key) == Some(c[j].value)
  {
    if j > 0 {
      assert c[1..][j - 1] == c[j];
      ChainGetFound(c[1..], j - 1);
    }
  }

  /** A binding appended to a chain that lacks its key is found, and
      nothing else changes. */
  lemma ChainGetAppend<V>(c: Chain<V>, b: Binding<V>, k: string)
    requires DistinctKeys(c) && ChainGet(c, b.key).None?
    ensures DistinctKeys(c + [b])
    ensures ChainGet(c + [b], k) == if k == b.key then Some(b.value) else ChainGet(c, k)
  {
    var r := c + [b];
    assert forall j :: 0 <= j < |c| ==> r[j] == c[j];
    if k == b.key {
      ChainGetFound(r, |c|);
    } else if ChainGet(c, k).Some? {
      var j :| 0 <= j < |c| && c[j].key == k;
      ChainGetFound(c, j);
      ChainGetFound(r, j);
    }
  }

  /** Overwriting the value of binding `j` changes what its key maps to and
      nothing else. */
  lemma ChainGetUpdate<V>(c: Chain<V>, j: nat, v: V, k: string)
    requires DistinctKeys(c) && j < |c|
    ensures DistinctKeys(c[j := Binding(c[j].key, v)])
    ensures ChainGet(c[j := Binding(c[j].key, v)], k) == if k == c[j].key then Some(v) else ChainGet(c, k)
  {
    var r := c[j := Binding(c[j].key, v)];
    assert forall a :: 0 <= a < |r| ==> r[a].key == c[a].key;
    if k == c[j].key {
      ChainGetFound(r, j);
    } else if ChainGet(c, k).Some? {
      var a :| 0 <= a < |c| && c[a].key == k;
      ChainGetFound(c, a);
      ChainGetFound(r, a);
    }
  }

  /** Removing a binding keeps the keys distinct. */
  lemma ErasedDistinctKeys<V>(c: Chain<V>, j: nat)
    requires DistinctKeys(c) && j < |c|
    ensures DistinctKeys(Erased(c, j))
  {
    var r := Erased(c, j);
    forall a, b | 0 <= a < b < |r|
      ensures r[a].key != r[b].key
    {
      var a' := if a < j then a else a + 1;
      var b' := if b < j then b else b + 1;
      assert r[a] == c[a'] && r[b] == c[b'];
    }
  }

  /** Removing binding `j` removes its key and nothing else. */
  lemma ChainGetErase<V>(c: Chain<V>, j: nat, k: string)
    requires DistinctKeys(c) && j < |c|
    ensures DistinctKeys(Erased(c, j))
    ensures ChainGet(Erased(c, j), k) == if k == c[j].key then None else ChainGet(c, k)
  {
    var r := Erased(c, j);
    ErasedDistinctKeys(c, j);
    if k == c[j].key {
      forall a | 0 <= a < |r|
        ensures r[a].key != k
      {
        var a' := if a < j then a else a + 1;
        assert r[a] == c[a'];
      }
    } else if ChainGet(c, k).Some? {
      var a :| 0 <= a < |c| && c[a].key == k;
      ChainGetFound(c, a);
      if a < j {
        assert r[a] == c[a];
        ChainGetFound(r, a);
      } else {
        assert r[a - 1] == c[a];
        ChainGetFound(r, a - 1);
      }
    } else {
      forall a | 0 <= a < |r|
        ensures r[a].key != k
      {
        var a' := if a < j then a else a + 1;
        assert r[a] == c[a'];
      }
    }
  }

  // ---------------------------------------------------------------------
  // Slots

  lemma WellFormedTail<V>(f: string -> U32, slots: seq<Slot<V>>)
    requires WellFormed(f, slots) && slots != []
    ensures WellFormed(f, slots[1..])
  {
    forall i | 0 <= i < |slots| - 1
      ensures SlotOk(f, slots[1..][i])
    {
      assert slots[1..][i] == slots[i + 1];
    }
  }

  /** No slot has `k`'s hash: `k` is absent. */
  lemma {:induction false} GetWithoutSlot<V>(f: string -> U32, slots: seq<Slot<V>>, k: string)
    requires forall i :: 0 <= i < |slots| ==> SlotOk(f, slots[i]) && slots[i].hash != f(k)
    ensures Get(slots, k).None?
  {
    if slots != [] {
      assert ChainGet(slots[0].value, k).None?;
      assert forall i :: 0 <= i < |slots| - 1 ==> slots[1..][i] == slots[i + 1];
      GetWithoutSlot(f, slots[1..], k);
    }
  }

  /** The slot at the lower bound of `k`'s hash decides the lookup of `k`:
      the reference lookup over every chain agrees with the binary search
      followed by a walk of one chain. */
  lemma {:induction false} GetBySlot<V>(f: string -> U32, slots: seq<Slot<V>>, k: string)
    requires WellFormed(f, slots)
    ensures Get(slots, k) == (var lb := SortedMap.LowerBound(slots, f(k));
      if lb < |slots| && slots[lb].hash == f(k) then ChainGet(slots[lb].value, k) else None)
  {
    if slots != [] {
      var s0 := slots[0];
      var tail := slots[1..];
      WellFormedTail(f, slots);
      if s0.hash != f(k) {
        assert ChainGet(s0.value, k).None?;
      }
      if s0.hash >= f(k) {
        forall i | 0 <= i < |tail|
          ensures SlotOk(f, tail[i]) && tail[i].hash != f(k)
        {
          assert tail[i] == slots[i + 1];
        }
        GetWithoutSlot(f, tail, k);
      } else {
        GetBySlot(f, tail, k);
      }
    }
  }

  /** Replacing the chain of slot `i` by another chain of keys with the same
      hash changes the lookups of that hash's keys only. */
  lemma ReplaceSlot<V>(f: string -> U32, slots: seq<Slot<V>>, i: nat, c: Chain<V>, k: string)
    requires WellFormed(f, slots) && i < |slots|
    requires SlotOk(f, SortedMap.Entry(slots[i].hash, c))
    ensures WellFormed(f, slots[i := SortedMap.Entry(slots[i].hash, c)])
    ensures Get(slots[i := SortedMap.Entry(slots[i].hash, c)], k)
            == if f(k) == slots[i].hash then ChainGet(c, k) else Get(slots, k)
  {
    var r := slots[i := SortedMap.Entry(slots[i].hash, c)];
    assert forall j :: 0 <= j < |r| ==> r[j].hash == slots[j].hash;
    assert WellFormed(f, r);
    var lb := SortedMap.LowerBound(slots, f(k));
    SortedMap.LowerBoundUnique(r, f(k), lb);
    GetBySlot(f, slots, k);
    GetBySlot(f, r, k);
    if f(k) == slots[i].hash {
      SortedMap.LowerBoundUnique(slots, f(k), i);
    }
  }

  /** A new slot placed at the lower bound of its hash keeps the slots well
      formed. */
  lemma InsertSlotWellFormed<V>(f: string -> U32, slots: seq<Slot<V>>, s: Slot<V>)
    requires WellFormed(f, slots) && SortedMap.Get(slots, s.hash).None? && SlotOk(f, s)
    ensures WellFormed(f, Inserted(slots, SortedMap.LowerBound(slots, s.hash), s))
  {
    var lb := SortedMap.LowerBound(slots, s.hash);
    var r := Inserted(slots, lb, s);
    SortedMap.InsertKeepsSorted(slots, s);
    forall j | 0 <= j < |r|
      ensures SlotOk(f, r[j])
    {
      if j < lb {
        assert r[j] == slots[j];
      } else if j > lb {
        assert r[j] == slots[j - 1];
      }
    }
  }

  /** Where the lower bound of a hash lies once a slot is placed at the
      lower bound of its own hash: one further on exactly for larger hashes. */
  lemma InsertSlotLowerBound<V>(slots: seq<Slot<V>>, s: Slot<V>, hk: U32)
    requires SortedMap.Sorted(slots)
    ensures var lo := SortedMap.LowerBound(slots, hk);
      SortedMap.LowerBound(Inserted(slots, SortedMap.LowerBound(slots, s.hash), s), hk)
      == if hk <= s.hash then lo else lo + 1
  {
    var h := s.hash;
    var lb := SortedMap.LowerBound(slots, h);
    var r := Inserted(slots, lb, s);
    var lo := SortedMap.LowerBound(slots, hk);
    if hk <= h {
      assert lo <= lb;
      forall j | 0 <= j < lo
        ensures r[j].hash < hk
      {
        assert r[j] == slots[j];
      }
      if lo < lb {
        assert r[lo] == slots[lo];
      } else {
        assert r[lo] == s;
      }
      SortedMap.LowerBoundUnique(r, hk, lo);
    } else {
      assert lo >= lb;
      forall j | 0 <= j < lo + 1
        ensures r[j].hash < hk
      {
        if j < lb {
          assert r[j] == slots[j];
        } else if j > lb {
          assert r[j] == slots[j - 1];
        }
      }
      if lo < |slots| {
        assert r[lo + 1] == slots[lo];
      }
      SortedMap.LowerBoundUnique(r, hk, lo + 1);
    }
  }

  /** With a new slot at the lower bound of its hash, a lookup of that hash
      inspects the new slot and a lookup of any other hash the slot it
      inspected before. */
  lemma InsertSlotLookup<V>(slots: seq<Slot<V>>, s: Slot<V>, hk: U32, k: string)
    requires SortedMap.Sorted(slots)
    ensures SlotLookup(Inserted(slots, SortedMap.LowerBound(slots, s.hash), s), hk, k)
            == if hk == s.hash then ChainGet(s.value, k) else SlotLookup(slots, hk, k)
  {
    if hk == s.hash {
      InsertSlotLookupSame(slots, s, k);
    } else if hk < s.hash {
      InsertSlotLookupBelow(slots, s, hk, k);
    } else {
      InsertSlotLookupAbove(slots, s, hk, k);
    }
  }

  /** A lookup of the new slot's own hash inspects the new slot. */
  lemma InsertSlotLookupSame<V>(slots: seq<Slot<V>>, s: Slot<V>, k: string)
    requires SortedMap.Sorted(slots)
    ensures SlotLookup(Inserted(slots, SortedMap.LowerBound(slots, s.hash), s), s.hash, k) == ChainGet(s.value, k)
  {
    var lb := SortedMap.LowerBound(slots, s.hash);
    var r := Inserted(slots, lb, s);
    InsertSlotLowerBound(slots, s, s.hash);
    assert SortedMap.LowerBound(r, s.hash) == lb && r[lb] == s;
  }

  /** A lookup of a smaller hash inspects the slot it inspected before, or
      finds the new slot, which does not carry it. */
  lemma InsertSlotLookupBelow<V>(slots: seq<Slot<V>>, s: Slot<V>, hk: U32, k: string)
    requires SortedMap.Sorted(slots) && hk < s.hash
    ensures SlotLookup(Inserted(slots, SortedMap.LowerBound(slots, s.hash), s), hk, k) == SlotLookup(slots, hk, k)
  {
    var lb := SortedMap.LowerBound(slots, s.hash);
    var r := Inserted(slots, lb, s);
    var lo := SortedMap.LowerBound(slots, hk);
    InsertSlotLowerBound(slots, s, hk);
    assert SortedMap.LowerBound(r, hk) == lo <= lb;
    if lo < lb {
      assert r[lo] == slots[lo];
    } else {
      assert r[lo] == s;
      assert lo < |slots| ==> slots[lo].hash >= s.hash;
    }
  }

  /** A lookup of a larger hash inspects the slot it inspected before, now
      one further on. */
  lemma InsertSlotLookupAbove<V>(slots: seq<Slot<V>>, s: Slot<V>, hk: U32, k: string)
    requires SortedMap.Sorted(slots) && hk > s.hash
    ensures SlotLookup(Inserted(slots, SortedMap.LowerBound(slots, s.hash), s), hk, k) == SlotLookup(slots, hk, k)
  {
    var lb := SortedMap.LowerBound(slots, s.hash);
    var r := Inserted(slots, lb, s);
    var lo := SortedMap.LowerBound(slots, hk);
    InsertSlotLowerBound(slots, s, hk);
    assert SortedMap.LowerBound(r, hk) == lo + 1;
    if lo < |slots| {
      assert r[lo + 1] == slots[lo];
    }
  }

  /** A new slot placed at the lower bound of a hash no slot has yet changes
      the lookups of that hash's keys only. */
  lemma InsertSlot<V>(f: string -> U32, slots: seq<Slot<V>>, s: Slot<V>, k: string)
    requires WellFormed(f, slots) && SortedMap.Get(slots, s.hash).None? && SlotOk(f, s)
    ensures WellFormed(f, Inserted(slots, SortedMap.LowerBound(slots, s.hash), s))
    ensures Get(Inserted(slots, SortedMap.LowerBound(slots, s.hash), s), k)
            == if f(k) == s.hash then ChainGet(s.value, k) else Get(slots, k)
  {
    var r := Inserted(slots, SortedMap.LowerBound(slots, s.hash), s);
    InsertSlotWellFormed(f, slots, s);
    GetBySlot(f, slots, k);
    GetBySlot(f, r, k);
    InsertSlotLookup(slots, s, f(k), k);
  }

  /** Removing slot `i` keeps the slots well formed. */
  lemma EraseSlotWellFormed<V>(f: string -> U32, slots: seq<Slot<V>>, i: nat)
    requires WellFormed(f, slots) && i < |slots|
    ensures WellFormed(f, Erased(slots, i))
  {
    var r := Erased(slots, i);
    SortedMap.EraseKeepsSorted(slots, i);
    forall j | 0 <= j < |r|
      ensures SlotOk(f, r[j])
    {
      if j < i {
        assert r[j] == slots[j];
      } else {
        assert r[j] == slots[j + 1];
      }
    }
  }

  /** Where the lower bound of a hash lies once slot `i` is removed. */
  lemma EraseSlotLowerBound<V>(slots: seq<Slot<V>>, i: nat, h: U32)
    requires SortedMap.Sorted(slots) && i < |slots|
    ensures var lo := SortedMap.LowerBound(slots, h);
      SortedMap.LowerBound(Erased(slots, i), h) == if lo <= i then lo else lo - 1
  {
    var r := Erased(slots, i);
    var lo := SortedMap.LowerBound(slots, h);
    assert |r| == |slots| - 1;
    if lo <= i {
      forall j | 0 <= j < lo
        ensures r[j].hash < h
      {
        assert r[j] == slots[j];
      }
      if lo < i {
        assert r[lo] == slots[lo];
      } else if i < |r| {
        assert r[i] == slots[i + 1];
        assert slots[i + 1].hash > slots[i].hash >= h;
      }
      SortedMap.LowerBoundUnique(r, h, lo);
    } else {
      assert slots[i].hash < h;
      forall j | 0 <= j < lo - 1
        ensures r[j].hash < h
      {
        if j < i {
          assert r[j] == slots[j];
        } else {
          assert r[j] == slots[j + 1];
        }
      }
      if lo < |slots| {
        assert r[lo - 1] == slots[lo];
      }
      SortedMap.LowerBoundUnique(r, h, lo - 1);
    }
  }

  /** The slot a lookup of `k` inspects: the one at the lower bound of its
      hash, when that slot carries the hash. */
  function SlotLookup<V>(slots: seq<Slot<V>>, h: U32, k: string): Option<V>
  {
    var lb := SortedMap.LowerBound(slots, h);
    if lb < |slots| && slots[lb].hash == h then ChainGet(slots[lb].value, k) else None
  }

  /** Removing slot `i` leaves the slot inspected for a hash other than its
      own as it was, and none for its own hash. */
  lemma EraseSlotLookup<V>(slots: seq<Slot<V>>, i: nat, h: U32, k: string)
    requires SortedMap.Sorted(slots) && i < |slots|
    ensures SlotLookup(Erased(slots, i), h, k)
            == if h == slots[i].hash then None else SlotLookup(slots, h, k)
  {
    var r := Erased(slots, i);
    EraseSlotLowerBound(slots, i, h);
    var lo := SortedMap.LowerBound(slots, h);
    if lo < i {
      assert r[lo] == slots[lo];
      assert slots[i].hash > slots[lo].hash >= h;
    } else if lo == i {
      if i < |r| {
        assert r[i] == slots[i + 1];
        assert slots[i + 1].hash > slots[i].hash >= h;
      }
    } else {
      assert slots[i].hash < h;
      if lo < |slots| {
        assert r[lo - 1] == slots[lo];
      }
    }
  }

  /** Removing slot `i` removes the keys of its hash and nothing else. */
  lemma EraseSlot<V>(f: string -> U32, slots: seq<Slot<V>>, i: nat, k: string)
    requires WellFormed(f, slots) && i < |slots|
    ensures WellFormed(f, Erased(slots, i))
    ensures Get(Erased(slots, i), k) == if f(k) == slots[i].hash then None else Get(slots, k)
  {
    EraseSlotWellFormed(f, slots, i);
    GetBySlot(f, slots, k);
    GetBySlot(f, Erased(slots, i), k);
    EraseSlotLookup(slots, i, f(k), k);
  }


  // ---------------------------------------------------------------------
  // The state changes of insert, set and erase

  /** The slots after bsthv_insert of a key that is absent: the binding is
      appended to the chain of its hash, or a new slot is placed at the
      lower bound of its hash. */
  function Put<V>(f: string -> U32, slots: seq<Slot<V>>, key: string, value: V): seq<Slot<V>>
  {
    var h := f(key);
    var lb := SortedMap.LowerBound(slots, h);
    if lb < |slots| && slots[lb].hash == h then
      slots[lb := SortedMap.Entry(h, slots[lb].value + [Binding(key, value)])]
    else
      Inserted(slots, lb, SortedMap.Entry(h, [Binding(key, value)]))
  }

  /** An inserted key maps to its value; every other key keeps its lookup. */
  lemma GetAfterPut<V>(f: string -> U32, slots: seq<Slot<V>>, key: string, value: V, k: string)
    requires WellFormed(f, slots) && Get(slots, key).None?
    ensures WellFormed(f, Put(f, slots, key, value))
    ensures Get(Put(f, slots, key, value), k) == if k == key then Some(value) else Get(slots, k)
  {
    var h := f(key);
    var lb := SortedMap.LowerBound(slots, h);
    var b := Binding(key, value);
    GetBySlot(f, slots, key);
    GetBySlot(f, slots, k);
    if lb < |slots| && slots[lb].hash == h {
      var c := slots[lb].value;
      ChainGetAppend(c, b, k);
      ReplaceSlot(f, slots, lb, c + [b], k);
    } else {
      SortedMap.LowerBoundDecides(slots, h);
      assert ChainGet([b], k) == if k == key then Some(value) else None;
      InsertSlot(f, slots, SortedMap.Entry(h, [b]), k);
    }
  }

  /** Each insertion of a new key adds one to the number of keys. */
  lemma KeyCountAfterPut<V>(f: string -> U32, slots: seq<Slot<V>>, key: string, value: V)
    ensures KeyCount(Put(f, slots, key, value)) == KeyCount(slots) + 1
  {
    var h := f(key);
    var lb := SortedMap.LowerBound(slots, h);
    if lb < |slots| && slots[lb].hash == h {
      KeyCountUpdate(slots, lb, SortedMap.Entry(h, slots[lb].value + [Binding(key, value)]));
    } else {
      KeyCountInsert(slots, lb, SortedMap.Entry(h, [Binding(key, value)]));
    }
  }

  lemma {:induction false} KeyCountUpdate<V>(slots: seq<Slot<V>>, i: nat, s: Slot<V>)
    requires i < |slots|
    ensures KeyCount(slots[i := s]) == KeyCount(slots) - |slots[i].value| + |s.value|
  {
    if i > 0 {
      assert slots[i := s][1..] == slots[1..][i - 1 := s];
      KeyCountUpdate(slots[1..], i - 1, s);
    } else {
      assert slots[i := s][1..] == slots[1..];
    }
  }

  lemma {:induction false} KeyCountInsert<V>(slots: seq<Slot<V>>, i: nat, s: Slot<V>)
    requires i <= |slots|
    ensures KeyCount(Inserted(slots, i, s)) == KeyCount(slots) + |s.value|
  {
    if i > 0 {
      assert Inserted(slots, i, s)[1..] == Inserted(slots[1..], i - 1, s);
      KeyCountInsert(slots[1..], i - 1, s);
    } else {
      assert Inserted(slots, i, s)[1..] == slots;
    }
  }

  lemma {:induction false} KeyCountErase<V>(slots: seq<Slot<V>>, i: nat)
    requires i < |slots|
    ensures KeyCount(Erased(slots, i)) == KeyCount(slots) - |slots[i].value|
  {
    if i > 0 {
      assert Erased(slots, i)[1..] == Erased(slots[1..], i - 1);
      KeyCountErase(slots[1..], i - 1);
    } else {
      assert Erased(slots, i) == slots[1..];
    }
  }

  /** Position of `k` in a chain that holds it. */
  function ChainIndex<V>(c: Chain<V>, k: string): (j: nat)
    requires ChainGet(c, k).Some?
    ensures j < |c| && c[j].key == k
    ensures forall a :: 0 <= a < j ==> c[a].key != k
  {
    if c[0].key == k then 0 else 1 + ChainIndex(c[1..], k)
  }

  /** The slots after bsthv_set with the key compared in every case: the
      value of `key`'s binding is replaced; nothing changes when `key` is
      absent. */
  function Assign<V>(f: string -> U32, slots: seq<Slot<V>>, key: string, value: V): seq<Slot<V>>
  {
    var h := f(key);
    var lb := SortedMap.LowerBound(slots, h);
    if lb < |slots| && slots[lb].hash == h && ChainGet(slots[lb].value, key).Some? then
      var c := slots[lb].value;
      slots[lb := SortedMap.Entry(h, c[ChainIndex(c, key) := Binding(key, value)])]
    else slots
  }

  /** After a set, a present key maps to the new value; nothing else
      changes, and an absent key stays absent. */
  lemma GetAfterAssign<V>(f: string -> U32, slots: seq<Slot<V>>, key: string, value: V, k: string)
    requires WellFormed(f, slots)
    ensures WellFormed(f, Assign(f, slots, key, value))
    ensures Get(Assign(f, slots, key, value), k)
            == if k == key && Get(slots, key).Some? then Some(value) else Get(slots, k)
  {
    var h := f(key);
    var lb := SortedMap.LowerBound(slots, h);
    GetBySlot(f, slots, key);
    if lb < |slots| && slots[lb].hash == h && ChainGet(slots[lb].value, key).Some? {
      var c := slots[lb].value;
      var j := ChainIndex(c, key);
      ChainGetUpdate(c, j, value, k);
      ReplaceSlot(f, slots, lb, c[j := Binding(key, value)], k);
      GetBySlot(f, slots, k);
    }
  }

  /** The slots after bsthv_erase with the key compared in every case: the
      binding of `key` leaves its chain, and a slot whose chain empties
      leaves the vector; nothing changes when `key` is absent. */
  function Remove<V>(f: string -> U32, slots: seq<Slot<V>>, key: string): seq<Slot<V>>
  {
    var h := f(key);
    var lb := SortedMap.LowerBound(slots, h);
    if lb < |slots| && slots[lb].hash == h && ChainGet(slots[lb].value, key).Some? then
      var c := slots[lb].value;
      if |c| == 1 then Erased(slots, lb)
      else slots[lb := SortedMap.Entry(h, Erased(c, ChainIndex(c, key)))]
    else slots
  }

  /** After an erase the key is absent and every other key keeps its
      lookup. */
  lemma GetAfterRemove<V>(f: string -> U32, slots: seq<Slot<V>>, key: string, k: string)
    requires WellFormed(f, slots)
    ensures WellFormed(f, Remove(f, slots, key))
    ensures Get(Remove(f, slots, key), k) == if k == key then None else Get(slots, k)
  {
    var h := f(key);
    var lb := SortedMap.LowerBound(slots, h);
    GetBySlot(f, slots, key);
    GetBySlot(f, slots, k);
    if lb < |slots| && slots[lb].hash == h && ChainGet(slots[lb].value, key).Some? {
      var c := slots[lb].value;
      var j := ChainIndex(c, key);
      if |c| == 1 {
        EraseSlot(f, slots, lb, k);
        if f(k) == h && k != key {
          assert c[0].key == key;
        }
      } else {
        ChainGetErase(c, j, k);
        ReplaceSlot(f, slots, lb, Erased(c, j), k);
      }
    }
  }

  /** Erasing a present key removes exactly one key from the count. */
  lemma KeyCountAfterRemove<V>(f: string -> U32, slots: seq<Slot<V>>, key: string)
    requires Get(slots, key).Some? && WellFormed(f, slots)
    ensures KeyCount(Remove(f, slots, key)) == KeyCount(slots) - 1
  {
    var h := f(key);
    var lb := SortedMap.LowerBound(slots, h);
    GetBySlot(f, slots, key);
    var c := slots[lb].value;
    if |c| == 1 {
      KeyCountErase(slots, lb);
    } else {
      KeyCountUpdate(slots, lb, SortedMap.Entry(h, Erased(c, ChainIndex(c, key))));
    }
  }

  // ---------------------------------------------------------------------
  // The code as written: a chain of one binding is taken without comparing
  // its key (bsthv_find, bsthv_set, bsthv_erase_key_value_object).

  /** bsthv_find as written. */
  function FindAsWritten<V>(f: string -> U32, slots: seq<Slot<V>>, key: string): Option<V>
  {
    var lb := SortedMap.LowerBound(slots, f(key));
    if lb < |slots| && slots[lb].hash == f(key) then
      if |slots[lb].value| == 1 then Some(slots[lb].value[0].value)
      else ChainGet(slots[lb].value, key)
    else None
  }

  /** bsthv_set as written. */
  function AssignAsWritten<V>(f: string -> U32, slots: seq<Slot<V>>, key: string, value: V): seq<Slot<V>>
  {
    var lb := SortedMap.LowerBound(slots, f(key));
    if lb < |slots| && slots[lb].hash == f(key) && |slots[lb].value| == 1 then
      slots[lb := SortedMap.Entry(f(key), [Binding(slots[lb].value[0].key, value)])]
    else Assign(f, slots, key, value)
  }

  /** bsthv_erase as written: the removed value and the new slots. */
  function RemoveAsWritten<V>(f: string -> U32, slots: seq<Slot<V>>, key: string): (Option<V>, seq<Slot<V>>)
  {
    var lb := SortedMap.LowerBound(slots, f(key));
    if lb < |slots| && slots[lb].hash == f(key) && |slots[lb].value| == 1 then
      (Some(slots[lb].value[0].value), Erased(slots, lb))
    else (Get(slots, key), Remove(f, slots, key))
  }

  /** The code as written agrees with the intended lookup, set and erase
      whenever the key is present: the shortcut only misbehaves for a key
      that is absent but collides with a lone key. */
  lemma AsWrittenAgreesOnPresentKeys<V>(f: string -> U32, slots: seq<Slot<V>>, key: string, value: V)
    requires WellFormed(f, slots) && Get(slots, key).Some?
    ensures FindAsWritten(f, slots, key) == Get(slots, key)
    ensures AssignAsWritten(f, slots, key, value) == Assign(f, slots, key, value)
    ensures RemoveAsWritten(f, slots, key) == (Get(slots, key), Remove(f, slots, key))
  {
    GetBySlot(f, slots, key);
    var lb := SortedMap.LowerBound(slots, f(key));
    var c := slots[lb].value;
    if |c| == 1 {
      assert c[0].key == key;
      assert ChainIndex(c, key) == 0;
      assert c[0 := Binding(key, value)] == [Binding(key, value)];
    }
  }

  /** Hash function of the collision tests: every key hashes to 42. */
  function Collide(s: string): U32
  {
    42
  }

  /** With "a" alone under hash 42 and "b" colliding with it, the code as
      written finds a value for the absent "b", lets a set of "b"
      overwrite "a", and lets an erase of "b" remove "a". */
  lemma LoneChainCounterexample()
    ensures var slots := [SortedMap.Entry(42, [Binding("a", 1)])];
      && Get(slots, "b") == None && FindAsWritten(Collide, slots, "b") == Some(1)
      && Get(AssignAsWritten(Collide, slots, "b", 2), "a") == Some(2)
      && Get(Assign(Collide, slots, "b", 2), "a") == Some(1)
      && RemoveAsWritten(Collide, slots, "b") == (Some(1), [])
      && Remove(Collide, slots, "b") == slots
  {
    var slots := [SortedMap.Entry(42, [Binding("a", 1)])];
    assert "a" != "b" by {
      assert "a"[0] != "b"[0];
    }
    assert SortedMap.LowerBound(slots, 42) == 0;
  }

  // ---------------------------------------------------------------------
  // Counting: bsthv_count reads the ordered vector's count, i.e. the
  // number of slots, not the number of keys.

  /** bsthv_count as written. */
  function SlotCount<V>(slots: seq<Slot<V>>): nat
  {
    |slots|
  }

  /** Without collisions the two counts agree; three colliding keys share
      one slot, so bsthv_count reports 1 where 3 keys are held. */
  lemma {:induction false} SlotCountWithoutCollisions<V>(slots: seq<Slot<V>>)
    requires forall i :: 0 <= i < |slots| ==> |slots[i].value| == 1
    ensures SlotCount(slots) == KeyCount(slots)
  {
    if slots != [] {
      assert forall i :: 0 <= i < |slots| - 1 ==> slots[1..][i] == slots[i + 1];
      SlotCountWithoutCollisions(slots[1..]);
    }
  }

  lemma CollidingCountCounterexample()
    ensures var slots := [SortedMap.Entry(42, [Binding("0", 53), Binding("1", 53), Binding("2", 53)])];
      SlotCount(slots) == 1 && KeyCount(slots) == 3
  {
  }

  // ---------------------------------------------------------------------
  // The hashed vector

  class HashedVector<V(==)> {
    var slots: seq<Slot<V>>

    ghost predicate Valid(f: string -> U32)
      reads this
    {
      WellFormed(f, slots)
    }

    /** bsthv_init_bsthv and bsthv_create: an empty vector. */
    constructor Init()
      ensures slots == []
    {
      slots := [];
    }

    /** Walks a chain for `key`: its position, or None. */
    static method SearchChain(c: Chain<V>, key: string) returns (r: Option<nat>)
      requires DistinctKeys(c)
      ensures r.None? <==> ChainGet(c, key).None?
      ensures r.Some? ==> r.value == ChainIndex(c, key)
    {
      var j := 0;
      while j < |c|
        invariant 0 <= j <= |c|
        invariant forall a :: 0 <= a < j ==> c[a].key != key
      {
        if c[j].key == key {
          return Some(j);
        }
        j := j + 1;
      }
      return None;
    }

    /** bsthv_find, with the key compared also in a chain of one. */
    method Find(f: string -> U32, key: string) returns (r: Option<V>)
      requires Valid(f)
      ensures r == Get(slots, key)
    {
      var h := f(key);
      var lb := SortedMap.FindLowerBound(slots, h);
      GetBySlot(f, slots, key);
      if lb.None? || slots[lb.value].hash != h {
        return None;
      }
      var c := slots[lb.value].value;
      var j := SearchChain(c, key);
      if j.None? {
        return None;
      }
      ChainGetFound(c, j.value);
      return Some(c[j.value].value);
    }

    /** bsthv_key_exists. */
    method KeyExists(f: string -> U32, key: string) returns (b: bool)
      requires Valid(f)
      ensures b <==> Get(slots, key).Some?
    {
      var h := f(key);
      var lb := SortedMap.FindLowerBound(slots, h);
      GetBySlot(f, slots, key);
      if lb.None? || slots[lb.value].hash != h {
        return false;
      }
      var j := SearchChain(slots[lb.value].value, key);
      return j.Some?;
    }

    /** bsthv_find_element: the key of the first binding holding `value`,
        walking the slots in order and each chain from its start; NULL when
        no binding holds it. */
    method FindElement(f: string -> U32, value: V) returns (r: Option<string>)
      requires Valid(f)
      ensures r.None? <==> forall i, j :: 0 <= i < |slots| && 0 <= j < |slots[i].value|
                                         ==> slots[i].value[j].value != value
      ensures r.Some? ==> Get(slots, r.value) == Some(value)
      ensures r.Some? ==> exists i, j :: FirstHolding(slots, i, j, value) && slots[i].value[j].key == r.value
    {
      var i := 0;
      while i < |slots|
        invariant 0 <= i <= |slots|
        invariant forall a, j :: 0 <= a < i && 0 <= j < |slots[a].value| ==> slots[a].value[j].value != value
      {
        var c := slots[i].value;
        var j := 0;
        while j < |c|
          invariant 0 <= j <= |c|
          invariant forall b :: 0 <= b < j ==> c[b].value != value
        {
          if c[j].value == value {
            ChainGetFound(c, j);
            GetBySlot(f, slots, c[j].key);
            SortedMap.LowerBoundUnique(slots, f(c[j].key), i);
            assert FirstHolding(slots, i, j, value);
            return Some(c[j].key);
          }
          j := j + 1;
        }
        i := i + 1;
      }
      return None;
    }

    /** bsthv_get_any_element: the first value of the last slot; NULL when
        the vector is empty. */
    function AnyElement(f: string -> U32): (r: Option<V>)
      reads this
      requires Valid(f)
      ensures r.None? <==> slots == []
      ensures r.Some? ==> exists k :: Get(slots, k) == r
    {
      if slots == [] then None
      else
        var s := slots[|slots| - 1];
        ChainGetFound(s.value, 0);
        GetBySlot(f, slots, s.value[0].key);
        SortedMap.LowerBoundUnique(slots, s.hash, |slots| - 1);
        Some(s.value[0].value)
    }

    /** bsthv_insert: refuses a key already present, even when its hash
        collides with other keys; otherwise appends the binding to its
        hash's chain or opens a new slot at the lower bound. Returns false
        when an allocation fails, and the model then leaves the vector as it
        was; on the collision path the source, when the copy of the key
        fails, frees the new chain node but leaves the chain's last link
        pointing at it. */
    method Insert(f: string -> U32, key: string, value: V, allocOk: bool) returns (ok: bool)
      requires Valid(f)
      modifies this
      ensures Valid(f)
      ensures ok <==> allocOk && old(Get(slots, key)).None?
      ensures ok ==> slots == Put(f, old(slots), key, value)
      ensures !ok ==> slots == old(slots)
    {
      var h := f(key);
      var lb := SortedMap.FindLowerBound(slots, h);
      GetBySlot(f, slots, key);
      if lb.Some? && slots[lb.value].hash == h {
        var c := slots[lb.value].value;
        var j := SearchChain(c, key);
        if j.Some? || !allocOk {
          return false;
        }
        GetAfterPut(f, slots, key, value, key);
        slots := slots[lb.value := SortedMap.Entry(h, c + [Binding(key, value)])];
        return true;
      }
      if !allocOk {
        return false;
      }
      SortedMap.LowerBoundDecides(slots, h);
      GetAfterPut(f, slots, key, value, key);
      if lb.None? {
        assert slots + [SortedMap.Entry(h, [Binding(key, value)])]
            == Inserted(slots, |slots|, SortedMap.Entry(h, [Binding(key, value)]));
        slots := slots + [SortedMap.Entry(h, [Binding(key, value)])];
      } else {
        slots := Inserted(slots, lb.value, SortedMap.Entry(h, [Binding(key, value)]));
      }
      return true;
    }

    /** bsthv_set, with the key compared also in a chain of one: overwrites
        the value of a present key and otherwise does nothing. */
    method Set(f: string -> U32, key: string, value: V)
      requires Valid(f)
      modifies this
      ensures Valid(f)
      ensures slots == Assign(f, old(slots), key, value)
    {
      var h := f(key);
      var lb := SortedMap.FindLowerBound(slots, h);
      GetAfterAssign(f, slots, key, value, key);
      if lb.None? || slots[lb.value].hash != h {
        return;
      }
      var c := slots[lb.value].value;
      var j := SearchChain(c, key);
      if j.Some? {
        slots := slots[lb.value := SortedMap.Entry(h, c[j.value := Binding(key, value)])];
      }
    }

    /** bsthv_erase and bsthv_erase_key_value_object, with the key compared
        also in a chain of one: removes `key` and returns its value; NULL,
        with nothing changed, when it is absent. */
    method Erase(f: string -> U32, key: string) returns (r: Option<V>)
      requires Valid(f)
      modifies this
      ensures Valid(f)
      ensures r == old(Get(slots, key))
      ensures slots == Remove(f, old(slots), key)
    {
      var h := f(key);
      var lb := SortedMap.FindLowerBound(slots, h);
      GetBySlot(f, slots, key);
      GetAfterRemove(f, slots, key, key);
      if lb.None? || slots[lb.value].hash != h {
        return None;
      }
      var c := slots[lb.value].value;
      var j := SearchChain(c, key);
      if j.None? {
        return None;
      }
      ChainGetFound(c, j.value);
      r := Some(c[j.value].value);
      if |c| == 1 {
        slots := Erased(slots, lb.value);
      } else {
        slots := slots[lb.value := SortedMap.Entry(h, Erased(c, j.value))];
      }
    }

    /** bsthv_erase_element: erases the key found by bsthv_find_element and
        returns `value`; NULL when no binding holds it. */
    method EraseElement(f: string -> U32, value: V) returns (r: Option<V>)
      requires Valid(f)
      modifies this
      ensures Valid(f)
      ensures r.None? <==> forall i, j :: 0 <= i < |old(slots)| && 0 <= j < |old(slots)[i].value|
                                         ==> old(slots)[i].value[j].value != value
      ensures r.None? ==> slots == old(slots)
      ensures r.Some? ==> r.value == value && exists k :: old(Get(slots, k)) == Some(value)
                                                 && slots == Remove(f, old(slots), k)
      ensures r.Some? ==> exists i, j :: FirstHolding(old(slots), i, j, value)
                                         && slots == Remove(f, old(slots), old(slots)[i].value[j].key)
    {
      var key := FindElement(f, value);
      if key.None? {
        return None;
      }
      var _ := Erase(f, key.value);
      return Some(value);
    }

    /** bsthv_clear and bsthv_clear_free: every chain and key is released
        and no slot remains. */
    method Clear()
      modifies this
      ensures slots == []
    {
      slots := [];
    }
  }
}

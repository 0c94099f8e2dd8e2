/** The sorted map of util/src/map.c: `(hash, value)` entries kept in an
    ordered vector in strictly ascending hash order and searched by binary
    search. The vector's storage is modelled as a sequence field; its own
    buffer handling is modelled in the OrderedVector module. A `void*` value
    is a value of `V` compared by equality. */
module SortedMap {
  import opened CTypes
  import opened Wrappers
  import opened SeqOps

  /** MAP_INVALID_KEY, `(uint32_t)-1`: never stored. */
  const MAP_INVALID_KEY: U32 := U32_MAX

  /** `struct map_key_value_t`. */
  datatype Entry<V> = Entry(hash: U32, value: V)

  /** Hashes strictly ascend from entry to entry. */
  predicate Sorted<V>(es: seq<Entry<V>>)
  {
    forall i, j :: 0 <= i < j < |es| ==> es[i].hash < es[j].hash
  }

  /** The entries a map may hold: sorted, and no entry under the reserved
      key. */
  predicate WellFormed<V>(es: seq<Entry<V>>)
  {
    Sorted(es) && forall i :: 0 <= i < |es| ==> es[i].hash != MAP_INVALID_KEY
  }

  /** Reference lookup by linear search: the value of the first entry under
      `h`. */
  function Get<V>(es: seq<Entry<V>>, h: U32): (r: Option<V>)
    ensures r.None? <==> forall i :: 0 <= i < |es| ==> es[i].hash != h
  {
    if es == [] then None
    else if es[0].hash == h then Some(es[0].value)
    else
      var r := Get(es[1..], h);
      assert forall i :: 1 <= i < |es| ==> es[i] == es[1..][i - 1];
      r
  }

  /** Position of the first entry whose hash is not below `h`, or `|es|`. */
  function LowerBound<V>(es: seq<Entry<V>>, h: U32): (k: nat)
    ensures k <= |es|
    ensures forall j :: 0 <= j < k ==> es[j].hash < h
    ensures k < |es| ==> es[k].hash >= h
  {
    if es == [] || es[0].hash >= h then 0 else 1 + LowerBound(es[1..], h)
  }

  /** The lower bound is the only position with nothing below it short of
      `h` and nothing at it short of `h`. */
  lemma LowerBoundUnique<V>(es: seq<Entry<V>>, h: U32, k: nat)
    requires k <= |es|
    requires forall j :: 0 <= j < k ==> es[j].hash < h
    requires k < |es| ==> es[k].hash >= h
    ensures LowerBound(es, h) == k
  {
    var lb := LowerBound(es, h);
    assert lb < |es| ==> es[lb].hash >= h;
    assert k < |es| ==> es[k].hash >= h;
  }

  /** In a sorted sequence every entry is found by its own hash. */
  lemma {:induction false} GetFound<V>(es: seq<Entry<V>>, i: nat)
    requires Sorted(es) && i < |es|
    ensures Get(es, es[i].hash) == Some(es[i].value)
  {
    if i > 0 {
      assert es[1..][i - 1] == es[i];
      GetFound(es[1..], i - 1);
    }
  }

  /** In a sorted sequence, the entry at the lower bound is the only
      candidate: the key is present exactly when that entry carries it. */
  lemma LowerBoundDecides<V>(es: seq<Entry<V>>, h: U32)
    requires Sorted(es)
    ensures Get(es, h) == if LowerBound(es, h) < |es| && es[LowerBound(es, h)].hash == h
                          then Some(es[LowerBound(es, h)].value) else None
  {
    var k := LowerBound(es, h);
    if k < |es| && es[k].hash == h {
      GetFound(es, k);
    } else {
      forall i | 0 <= i < |es|
        ensures es[i].hash != h
      {
        if i > k {
          assert es[i].hash > es[k].hash;
        }
      }
    }
  }

  /** Inserting a new key at its lower bound keeps the entries sorted. */
  lemma InsertKeepsSorted<V>(es: seq<Entry<V>>, e: Entry<V>)
    requires Sorted(es) && Get(es, e.hash).None?
    ensures Sorted(Inserted(es, LowerBound(es, e.hash), e))
  {
    var k := LowerBound(es, e.hash);
    var r := Inserted(es, k, e);
    forall i, j | 0 <= i < j < |r|
      ensures r[i].hash < r[j].hash
    {
      if j == k {
        assert r[i] == es[i];
      } else if i == k {
        assert r[j] == es[j - 1] && es[j - 1].hash >= e.hash;
      } else if j < k {
        assert r[i] == es[i] && r[j] == es[j];
      } else if i < k {
        assert r[i] == es[i] && r[j] == es[j - 1];
      } else {
        assert r[i] == es[i - 1] && r[j] == es[j - 1];
      }
    }
  }

  /** After inserting a new key, it maps to the new value and every other
      key maps to what it mapped to before. */
  lemma GetAfterInsert<V>(es: seq<Entry<V>>, e: Entry<V>, h: U32)
    requires Sorted(es) && Get(es, e.hash).None?
    ensures Get(Inserted(es, LowerBound(es, e.hash), e), h)
            == if h == e.hash then Some(e.value) else Get(es, h)
  {
    var k := LowerBound(es, e.hash);
    InsertKeepsSorted(es, e);
    if h == e.hash {
      GetFound(Inserted(es, k, e), k);
    } else if Get(es, h).Some? {
      var i :| 0 <= i < |es| && es[i].hash == h;
      GetFound(es, i);
      InsertedKeepsEntry(es, k, e, i);
    } else {
      InsertedStillMissing(es, k, e, h);
    }
  }

  lemma InsertedKeepsEntry<V>(es: seq<Entry<V>>, k: nat, e: Entry<V>, i: nat)
    requires k <= |es| && i < |es| && Sorted(Inserted(es, k, e))
    ensures Get(Inserted(es, k, e), es[i].hash) == Some(es[i].value)
  {
    var r := Inserted(es, k, e);
    var j := if i < k then i else i + 1;
    assert r[j] == es[i];
    GetFound(r, j);
  }

  lemma InsertedStillMissing<V>(es: seq<Entry<V>>, k: nat, e: Entry<V>, h: U32)
    requires k <= |es| && e.hash != h && Get(es, h).None?
    ensures Get(Inserted(es, k, e), h).None?
  {
    var r := Inserted(es, k, e);
    forall j | 0 <= j < |r|
      ensures r[j].hash != h
    {
      if j < k {
        assert r[j] == es[j];
      } else if j > k {
        assert r[j] == es[j - 1];
      }
    }
  }

  /** Removing an entry keeps the entries sorted. */
  lemma EraseKeepsSorted<V>(es: seq<Entry<V>>, k: nat)
    requires Sorted(es) && k < |es|
    ensures Sorted(Erased(es, k))
  {
    var r := Erased(es, k);
    forall i, j | 0 <= i < j < |r|
      ensures r[i].hash < r[j].hash
    {
      var i' := if i < k then i else i + 1;
      var j' := if j < k then j else j + 1;
      assert r[i] == es[i'] && r[j] == es[j'];
    }
  }

  /** After erasing the entry of a key, that key is absent and every other
      key maps to what it mapped to before. */
  lemma GetAfterErase<V>(es: seq<Entry<V>>, k: nat, h: U32)
    requires Sorted(es) && k < |es|
    ensures Get(Erased(es, k), h) == if h == es[k].hash then None else Get(es, h)
  {
    var r := Erased(es, k);
    EraseKeepsSorted(es, k);
    if h == es[k].hash {
      forall j | 0 <= j < |r|
        ensures r[j].hash != h
      {
        if j < k {
          assert r[j] == es[j];
        } else {
          assert r[j] == es[j + 1];
        }
      }
    } else if Get(es, h).Some? {
      var i :| 0 <= i < |es| && es[i].hash == h;
      GetFound(es, i);
      var j := if i < k then i else i - 1;
      assert r[j] == es[i];
      GetFound(r, j);
    } else {
      forall j | 0 <= j < |r|
        ensures r[j].hash != h
      {
        if j < k {
          assert r[j] == es[j];
        } else {
          assert r[j] == es[j + 1];
        }
      }
    }
  }

  /** Replacing the value of an entry in place keeps its key's position;
      that key now maps to the new value and the others are unaffected. */
  lemma GetAfterSet<V>(es: seq<Entry<V>>, k: nat, v: V, h: U32)
    requires Sorted(es) && k < |es|
    ensures Sorted(es[k := Entry(es[k].hash, v)])
    ensures Get(es[k := Entry(es[k].hash, v)], h) == if h == es[k].hash then Some(v) else Get(es, h)
  {
    var r := es[k := Entry(es[k].hash, v)];
    assert forall j :: 0 <= j < |r| ==> r[j].hash == es[j].hash;
    if h == es[k].hash {
      GetFound(r, k);
    } else if Get(es, h).Some? {
      var i :| 0 <= i < |es| && es[i].hash == h;
      GetFound(es, i);
      GetFound(r, i);
    }
  }

  /** The first key `i` from 0 on that the entries do not hold in sequence:
      the result of map_find_unused_key. */
  function FirstGap<V>(es: seq<Entry<V>>): (i: nat)
    ensures i <= |es|
    ensures forall j :: 0 <= j < i ==> es[j].hash == j
    ensures i < |es| ==> es[i].hash != i
  {
    FirstGapFrom(es, 0)
  }

  function FirstGapFrom<V>(es: seq<Entry<V>>, i: nat): (r: nat)
    requires i <= |es|
    requires forall j :: 0 <= j < i ==> es[j].hash == j
    ensures i <= r <= |es|
    ensures forall j :: 0 <= j < r ==> es[j].hash == j
    ensures r < |es| ==> es[r].hash != r
    decreases |es| - i
  {
    if i == |es| || es[i].hash != i then i else FirstGapFrom(es, i + 1)
  }

  /** The key map_find_unused_key returns is not in use, and fits a
      `uint32_t`. */
  lemma FirstGapUnused<V>(es: seq<Entry<V>>)
    requires WellFormed(es)
    ensures FirstGap(es) <= U32_MAX
    ensures Get(es, FirstGap(es) as U32).None?
  {
    var i := FirstGap(es);
    if i > 0 {
      assert es[i - 1].hash == i - 1 && es[i - 1].hash != MAP_INVALID_KEY;
    }
    forall j | 0 <= j < |es|
      ensures es[j].hash != i
    {
      if j > i {
        assert es[j].hash > es[i].hash;
        if i > 0 {
          assert es[i].hash > es[i - 1].hash;
        }
      }
    }
  }

  /** map_find_lower_bound: the binary search of the vector (the lower_bound
      of the C++ library), for the first entry whose hash is not below
      `hash`; None when there is none. bsthv_find_lower_bound is the same
      search over the hashed vector's slots. */
  method FindLowerBound<V>(entries: seq<Entry<V>>, hash: U32) returns (r: Option<nat>)
    requires Sorted(entries)
    ensures r == if LowerBound(entries, hash) < |entries| then Some(LowerBound(entries, hash)) else None
  {
    var first: nat := 0;
    var len: nat := |entries|;
    if len == 0 {
      return None;
    }
    while len > 0
      invariant first + len <= |entries|
      invariant forall j :: 0 <= j < first ==> entries[j].hash < hash
      invariant forall j :: first + len <= j < |entries| ==> entries[j].hash >= hash
      decreases len
    {
      var half := len / 2;
      var middle := first + half;
      if entries[middle].hash < hash {
        first := middle + 1;
        len := len - half - 1;
      } else {
        len := half;
      }
    }
    ghost var k := LowerBound(entries, hash);
    assert first < |entries| ==> entries[first].hash >= hash;
    assert k < |entries| ==> entries[k].hash >= hash;
    assert k == first;
    if first >= |entries| {
      return None;
    }
    return Some(first);
  }

  class Map<V(==)> {
    var entries: seq<Entry<V>>

    ghost predicate Valid()
      reads this
    {
      WellFormed(entries)
    }

    /** map_init_map: an empty map. */
    constructor Init()
      ensures Valid() && entries == []
    {
      entries := [];
    }

    /** map_find: the value stored under `hash`, or NULL. */
    method Find(hash: U32) returns (r: Option<V>)
      requires Valid()
      ensures r == Get(entries, hash)
    {
      var lb := FindLowerBound(entries, hash);
      LowerBoundDecides(entries, hash);
      if lb.None? || entries[lb.value].hash != hash {
        return None;
      }
      return Some(entries[lb.value].value);
    }

    /** map_find_element: the hash of the first entry holding `value`, or
        MAP_INVALID_KEY. */
    method FindElement(value: V) returns (h: U32)
      requires Valid()
      ensures h == MAP_INVALID_KEY <==> forall i :: 0 <= i < |entries| ==> entries[i].value != value
      ensures h != MAP_INVALID_KEY ==> exists i :: 0 <= i < |entries| && entries[i] == Entry(h, value)
                                                 && forall j :: 0 <= j < i ==> entries[j].value != value
    {
      var i := 0;
      while i != |entries|
        invariant 0 <= i <= |entries|
        invariant forall j :: 0 <= j < i ==> entries[j].value != value
      {
        if entries[i].value == value {
          return entries[i].hash;
        }
        i := i + 1;
      }
      return MAP_INVALID_KEY;
    }

    /** map_key_exists. */
    method KeyExists(hash: U32) returns (b: bool)
      requires Valid()
      ensures b <==> Get(entries, hash).Some?
    {
      var lb := FindLowerBound(entries, hash);
      LowerBoundDecides(entries, hash);
      return lb.Some? && entries[lb.value].hash == hash;
    }

    /** map_find_unused_key: counts up from 0 along the entries until a key
        is missing. */
    method FindUnusedKey() returns (key: U32)
      requires Valid()
      ensures key == FirstGap(entries)
      ensures Get(entries, key).None?
    {
      FirstGapUnused(entries);
      var i: nat := 0;
      while i != |entries|
        invariant i <= FirstGap(entries)
        invariant forall j :: 0 <= j < i ==> entries[j].hash == j
      {
        if i != entries[i].hash {
          break;
        }
        i := i + 1;
      }
      return i;
    }

    /** map_insert: refuses MAP_INVALID_KEY and a key already present;
        otherwise places the new entry at its lower bound. */
    method Insert(hash: U32, value: V) returns (ok: bool)
      requires Valid()
      modifies this
      ensures Valid()
      ensures ok <==> hash != MAP_INVALID_KEY && old(Get(entries, hash)).None?
      ensures ok ==> entries == Inserted(old(entries), LowerBound(old(entries), hash), Entry(hash, value))
      ensures !ok ==> entries == old(entries)
    {
      if hash == MAP_INVALID_KEY {
        return false;
      }
      var lb := FindLowerBound(entries, hash);
      LowerBoundDecides(entries, hash);
      if lb.Some? && entries[lb.value].hash == hash {
        return false;
      }
      var e := Entry(hash, value);
      InsertKeepsSorted(entries, e);
      if lb.None? {
        assert entries + [e] == Inserted(entries, |entries|, e);
        entries := entries + [e];
      } else {
        entries := Inserted(entries, lb.value, e);
      }
      return true;
    }

    /** map_set: overwrites the value of an existing key; does nothing when
        the key is absent. */
    method Set(hash: U32, value: V)
      requires Valid()
      modifies this
      ensures Valid()
      ensures old(Get(entries, hash)).None? ==> entries == old(entries)
      ensures old(Get(entries, hash)).Some? ==>
        entries == old(entries)[LowerBound(old(entries), hash) := Entry(hash, value)]
    {
      var lb := FindLowerBound(entries, hash);
      LowerBoundDecides(entries, hash);
      if lb.Some? && entries[lb.value].hash == hash {
        GetAfterSet(entries, lb.value, value, hash);
        entries := entries[lb.value := Entry(hash, value)];
      }
    }

    /** map_erase: removes the entry of `hash` and returns its value; NULL,
        with the map unchanged, when the key is absent. The removal is the
        intended one of ordered_vector_erase_element. */
    method Erase(hash: U32) returns (r: Option<V>)
      requires Valid()
      modifies this
      ensures Valid()
      ensures r == old(Get(entries, hash))
      ensures r.None? ==> entries == old(entries)
      ensures r.Some? ==> entries == Erased(old(entries), LowerBound(old(entries), hash))
    {
      var lb := FindLowerBound(entries, hash);
      LowerBoundDecides(entries, hash);
      if lb.None? || entries[lb.value].hash != hash {
        return None;
      }
      r := Some(entries[lb.value].value);
      EraseKeepsSorted(entries, lb.value);
      entries := Erased(entries, lb.value);
    }

    /** map_erase_element: erases the first entry holding `value` and
        returns `value`; NULL when no entry holds it. */
    method EraseElement(value: V) returns (r: Option<V>)
      requires Valid()
      modifies this
      ensures Valid()
      ensures r.None? <==> forall i :: 0 <= i < |old(entries)| ==> old(entries)[i].value != value
      ensures r.Some? ==> r.value == value
      ensures r.Some? ==> exists k :: 0 <= k < |old(entries)| && old(entries)[k].value == value
                                     && (forall j :: 0 <= j < k ==> old(entries)[j].value != value)
                                     && entries == Erased(old(entries), k)
      ensures r.None? ==> entries == old(entries)
    {
      var hash := FindElement(value);
      if hash == MAP_INVALID_KEY {
        return None;
      }
      ghost var i :| 0 <= i < |entries| && entries[i] == Entry(hash, value)
                     && forall j :: 0 <= j < i ==> entries[j].value != value;
      var lb := FindLowerBound(entries, hash);
      LowerBoundDecides(entries, hash);
      GetFound(entries, i);
      assert LowerBound(entries, hash) == i;
      EraseKeepsSorted(entries, i);
      entries := Erased(entries, lb.value);
      return Some(value);
    }

    /** MAP_ERASE_CURRENT_ITEM_IN_FOR_LOOP: erases the entry a MAP_FOR_EACH
        loop is visiting; the loop's index is then stepped back so that the
        entry moving into the slot is visited next. */
    method EraseCurrent(i: nat)
      requires Valid() && i < |entries|
      modifies this
      ensures Valid()
      ensures entries == Erased(old(entries), i)
    {
      EraseKeepsSorted(entries, i);
      entries := Erased(entries, i);
    }

    /** map_clear and map_clear_free: no entries remain. */
    method Clear()
      modifies this
      ensures Valid() && entries == []
    {
      entries := [];
    }
  }
}

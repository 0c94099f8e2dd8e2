/** The unordered vector of util/src/util/unordered_vector.c: a growable
    buffer that fills the gap left by an erased element with the last one.
    Elements are values of `T`; a pointer into the buffer is modelled by its
    index, and the outcome of each `malloc` is a parameter. */
module UnorderedVector {
  import opened Wrappers
  import opened CTypes
  import opened Buffers

  /** The copy unordered_vector_expand makes into its new buffer: the first
      `n` elements, with slot `gap` left free when it lies inside the new
      buffer. */
  method CopyWithGap<T>(src: array<T>, dst: array<T>, n: nat, gap: U32)
    requires n <= src.Length && n < dst.Length && src != dst
    requires gap == U32_MAX || gap <= n
    modifies dst
    ensures gap == U32_MAX || gap >= dst.Length ==> dst[..n] == src[..n]
    ensures gap != U32_MAX && gap < dst.Length ==>
      dst[..gap] == src[..gap] && dst[gap + 1..n + 1] == src[gap..n]
  {
    if gap == U32_MAX || gap >= dst.Length {
      CopyElements(src, 0, dst, 0, n);
    } else {
      CopyElements(src, 0, dst, 0, gap);
      CopyElements(src, gap, dst, gap + 1, n - gap);
      assert dst[..gap] == src[..gap];
    }
  }

  class UnorderedVector<T(0)> {
    var elementSize: U32
    var capacity: nat
    var count: nat
    var data: array?<T>

    ghost predicate Valid()
      reads this
    {
      && (data == null <==> capacity == 0)
      && (data != null ==> data.Length == capacity)
      && count <= capacity
    }

    /** The elements, in buffer order. */
    function Contents(): seq<T>
      reads this, data
      requires Valid()
    {
      if data == null then [] else data[..count]
    }

    /** unordered_vector_init_vector: an empty vector of the given element
        size, with no buffer. */
    constructor Init(elementSize: U32)
      requires elementSize != 0
      ensures Valid()
      ensures this.elementSize == elementSize
      ensures count == 0 && capacity == 0 && data == null
      ensures Contents() == []
    {
      this.elementSize := elementSize;
      capacity := 0;
      count := 0;
      data := null;
    }

    /** unordered_vector_clear: forgets the elements, keeps the buffer. */
    method Clear()
      requires Valid()
      modifies this
      ensures Valid()
      ensures count == 0 && capacity == old(capacity) && data == old(data)
      ensures elementSize == old(elementSize)
      ensures Contents() == []
    {
      count := 0;
    }

    /** unordered_vector_clear_free: also releases the buffer. */
    method ClearFree()
      requires Valid()
      modifies this
      ensures Valid()
      ensures count == 0 && capacity == 0 && data == null
      ensures elementSize == old(elementSize)
    {
      data := null;
      count := 0;
      capacity := 0;
    }

    /** unordered_vector_expand: doubles the capacity (0 becomes 2) into a
        new buffer, optionally leaving a free slot at `insertionIndex`
        (`(uint32_t)-1` for none). When `malloc` fails it reports failure
        and the vector is unchanged. */
    method Expand(insertionIndex: U32, allocOk: bool) returns (ok: bool)
      requires Valid()
      requires insertionIndex == U32_MAX || insertionIndex <= count
      modifies this
      ensures Valid()
      ensures ok == allocOk
      ensures !ok ==> data == old(data) && capacity == old(capacity)
      ensures ok ==> fresh(data)
      ensures ok ==> capacity == (if old(capacity) == 0 then 2 else 2 * old(capacity))
      ensures count == old(count) && elementSize == old(elementSize)
      ensures ok && (insertionIndex == U32_MAX || insertionIndex >= capacity) ==>
        data[..count] == old(Contents())
      ensures ok && insertionIndex != U32_MAX && insertionIndex < capacity ==>
        && data[..insertionIndex] == old(Contents())[..insertionIndex]
        && data[insertionIndex + 1..count + 1] == old(Contents())[insertionIndex..]
    {
      var n := count;
      var newSize := 2 * capacity;
      if newSize == 0 {
        newSize := 2;
        if !allocOk {
          return false;
        }
        data := new T[newSize];
        capacity := newSize;
        return true;
      }
      if !allocOk {
        return false;
      }
      var oldData := data;
      var newData := new T[newSize];
      CopyWithGap(oldData, newData, n, insertionIndex);
      capacity := newSize;
      data := newData;
      return true;
    }

    /** unordered_vector_push_emplace: makes room for one more element at
        the end and returns its slot; None, with nothing changed, when the
        buffer had to grow and `malloc` failed. */
    method PushEmplace(allocOk: bool) returns (slot: Option<nat>)
      requires Valid()
      modifies this
      ensures Valid()
      ensures slot.None? <==> old(count) == old(capacity) && !allocOk
      ensures slot.None? ==> count == old(count) && capacity == old(capacity) && data == old(data)
      ensures slot.Some? ==> slot.value == old(count) && count == old(count) + 1
      ensures slot.Some? ==> Contents()[..old(count)] == old(Contents())
      ensures slot.Some? && old(count) == old(capacity) ==>
        fresh(data) && capacity == (if old(capacity) == 0 then 2 else 2 * old(capacity))
      ensures old(count) < old(capacity) ==> data == old(data) && capacity == old(capacity)
      ensures elementSize == old(elementSize)
    {
      if count == capacity {
        var ok := Expand(U32_MAX, allocOk);
        if !ok {
          return None;
        }
      }
      slot := Some(count);
      count := count + 1;
    }

    /** unordered_vector_push: appends a copy of `x`; returns false, with
        nothing changed, when the buffer could not grow. */
    method Push(x: T, allocOk: bool) returns (ok: bool)
      requires Valid()
      modifies this, data
      ensures Valid()
      ensures ok <==> old(count) < old(capacity) || allocOk
      ensures ok ==> Contents() == old(Contents()) + [x]
      ensures !ok ==> count == old(count) && capacity == old(capacity) && data == old(data)
      ensures elementSize == old(elementSize)
    {
      var slot := PushEmplace(allocOk);
      if slot.None? {
        return false;
      }
      data[slot.value] := x;
      return true;
    }

    /** unordered_vector_pop: removes the last element and returns it;
        NULL on an empty vector. */
    method Pop() returns (r: Option<T>)
      requires Valid()
      modifies this
      ensures Valid()
      ensures old(count) == 0 <==> r.None?
      ensures r.Some? ==> r.value == old(Contents())[old(count) - 1]
      ensures Contents() == if old(count) == 0 then old(Contents()) else old(Contents())[..old(count) - 1]
      ensures capacity == old(capacity) && data == old(data) && elementSize == old(elementSize)
    {
      if count == 0 {
        return None;
      }
      count := count - 1;
      return Some(data[count]);
    }

    /** unordered_vector_back: the last element, or NULL when empty. */
    function Back(): (r: Option<T>)
      reads this, data
      requires Valid()
      ensures count == 0 <==> r.None?
      ensures r.Some? ==> r.value == Contents()[|Contents()| - 1]
    {
      if count == 0 then None else Some(data[count - 1])
    }

    /** unordered_vector_erase_index: the last element moves into the gap;
        an index past the end is ignored. */
    method EraseIndex(index: U32)
      requires Valid()
      modifies this, data
      ensures Valid()
      ensures index >= old(count) ==> Contents() == old(Contents())
      ensures index < old(count) ==> Contents() == SwapRemoved(old(Contents()), index)
      ensures capacity == old(capacity) && data == old(data) && elementSize == old(elementSize)
    {
      if index >= count {
        return;
      }
      ghost var s := Contents();
      if index + 1 < count {
        data[index] := data[count - 1];
        assert data[..count - 1] == s[..index] + [s[|s| - 1]] + s[index + 1..|s| - 1];
      }
      count := count - 1;
    }

    /** unordered_vector_erase_element: the element at `index`, which must
        lie inside the vector, is replaced by the last one. */
    method EraseElement(index: nat)
      requires Valid() && index < count
      modifies this, data
      ensures Valid()
      ensures Contents() == SwapRemoved(old(Contents()), index)
      ensures capacity == old(capacity) && data == old(data) && elementSize == old(elementSize)
    {
      ghost var s := Contents();
      count := count - 1;
      if index != count {
        data[index] := data[count];
        assert data[..count] == s[..index] + [s[|s| - 1]] + s[index + 1..|s| - 1];
      }
    }

    /** unordered_vector_get_element: the element at `index`, or NULL past
        the end. */
    function GetElement(index: U32): (r: Option<T>)
      reads this, data
      requires Valid()
      ensures index >= count <==> r.None?
      ensures r.Some? ==> r.value == Contents()[index]
    {
      if index >= count then None else Some(data[index])
    }
  }

  /** `s` after its element at `i` is overwritten by the last one and the
      last slot is dropped: the elements before `i` keep their places and the
      last one takes the place of the erased one. */
  function SwapRemoved<T>(s: seq<T>, i: nat): (r: seq<T>)
    requires i < |s|
    ensures |r| == |s| - 1
    ensures r[..i] == s[..i]
    ensures i < |s| - 1 ==> r[i] == s[|s| - 1] && r[i + 1..] == s[i + 1..|s| - 1]
  {
    if i == |s| - 1 then s[..i]
    else s[..i] + [s[|s| - 1]] + s[i + 1..|s| - 1]
  }

  /** Swap-removal takes away exactly one occurrence of the erased element
      and keeps every other element. */
  lemma SwapRemovedMultiset<T>(s: seq<T>, i: nat)
    requires i < |s|
    ensures multiset(SwapRemoved(s, i)) == multiset(s) - multiset{s[i]}
  {
    if i == |s| - 1 {
      assert s == s[..i] + [s[i]];
    } else {
      assert s == s[..i] + [s[i]] + s[i + 1..|s| - 1] + [s[|s| - 1]];
    }
  }

  /** Erasing the last element is the same as popping it. */
  lemma SwapRemoveLastIsPop<T>(s: seq<T>)
    requires |s| > 0
    ensures SwapRemoved(s, |s| - 1) == s[..|s| - 1]
  {
  }

  /** Pushing an element and erasing it by index restores the vector. */
  lemma EraseUndoesPush<T>(s: seq<T>, x: T)
    ensures SwapRemoved(s + [x], |s|) == s
  {
    assert (s + [x])[..|s|] == s;
  }
}

/** The ordered vector of util/src/ordered_vector.c: a growable buffer that
    keeps its elements contiguous and in insertion order. Elements are
    values of `T`; a pointer into the buffer is modelled by its index. */
module OrderedVector {
  import opened Wrappers
  import opened Buffers
  import opened SeqOps

  class OrderedVector<T(0)> {
    var elementSize: int
    var capacity: nat
    var count: nat
    var data: array?<T>

    /** Buffer and counters agree: no buffer exactly when the capacity is
        zero, and the count never exceeds the capacity. */
    ghost predicate Valid()
      reads this
    {
      && (data == null <==> capacity == 0)
      && (data != null ==> data.Length == capacity)
      && count <= capacity
    }

    /** The elements, in order. */
    function Contents(): seq<T>
      reads this, data
      requires Valid()
    {
      if data == null then [] else data[..count]
    }

    /** ordered_vector_init_vector (and the initialisation in
        ordered_vector_create): everything zero but the element size. */
    constructor Init(elementSize: int)
      ensures Valid()
      ensures this.elementSize == elementSize
      ensures count == 0 && capacity == 0 && data == null
      ensures Contents() == []
    {
      this.elementSize := elementSize;
      capacity := 0;
      count := 0;
      data := null;
    }

    /** ordered_vector_clear: forgets the elements, keeps the buffer. */
    method Clear()
      requires Valid()
      modifies this
      ensures Valid()
      ensures count == 0 && capacity == old(capacity) && data == old(data)
      ensures elementSize == old(elementSize)
      ensures Contents() == []
    {
      count := 0;
    }

    /** ordered_vector_clear_free: also releases the buffer. */
    method ClearFree()
      requires Valid()
      modifies this
      ensures Valid()
      ensures count == 0 && capacity == 0 && data == null
      ensures elementSize == old(elementSize)
    {
      data := null;
      count := 0;
      capacity := 0;
    }

    /** ordered_vector_expand: doubles the capacity (0 becomes 2) and copies
        the elements into a new buffer. With an insertion index below the new
        capacity, one free slot is left at that index and the elements from
        it on move up by one. */
    method Expand(insertionIndex: int)
      requires Valid()
      requires insertionIndex == -1 || 0 <= insertionIndex <= count
      modifies this
      ensures Valid() && fresh(data)
      ensures capacity == (if old(capacity) == 0 then 2 else 2 * old(capacity))
      ensures count == old(count) && elementSize == old(elementSize)
      ensures insertionIndex == -1 ==> data[..count] == old(Contents())
      ensures insertionIndex != -1 ==>
        && data[..insertionIndex] == old(Contents())[..insertionIndex]
        && data[insertionIndex + 1..count + 1] == old(Contents())[insertionIndex..]
    {
      var n := count;
      var newSize := 2 * capacity;
      if newSize == 0 {
        newSize := 2;
        data := new T[newSize];
        capacity := newSize;
        return;
      }
      var oldData := data;
      var newData := new T[newSize];
      if insertionIndex == -1 || insertionIndex >= newSize {
        CopyElements(oldData, 0, newData, 0, n);
      } else {
        CopyElements(oldData, 0, newData, 0, insertionIndex);
        CopyElements(oldData, insertionIndex, newData, insertionIndex + 1, n - insertionIndex);
        assert newData[..insertionIndex] == oldData[..insertionIndex];
      }
      data := newData;
      capacity := newSize;
    }

    /** ordered_vector_push_emplace: makes room for one more element at the
        end and returns its slot, whose content is left as it was. */
    method PushEmplace() returns (slot: nat)
      requires Valid()
      modifies this, data
      ensures Valid()
      ensures slot == old(count) && count == old(count) + 1
      ensures Contents()[..slot] == old(Contents())
      ensures data == old(data) || fresh(data)
      ensures capacity == if old(count) == old(capacity) then
                            (if old(capacity) == 0 then 2 else 2 * old(capacity))
                          else old(capacity)
      ensures elementSize == old(elementSize)
    {
      if count == capacity {
        Expand(-1);
      }
      slot := count;
      count := count + 1;
    }

    /** ordered_vector_push: appends a copy of `x`. */
    method Push(x: T)
      requires Valid()
      modifies this, data
      ensures Valid()
      ensures Contents() == old(Contents()) + [x]
      ensures elementSize == old(elementSize)
    {
      var slot := PushEmplace();
      data[slot] := x;
    }

    /** ordered_vector_pop: removes the last element and returns it (the
        memory still holds it); NULL on an empty vector. */
    method Pop() returns (r: Option<T>)
      requires Valid()
      modifies this
      ensures Valid()
      ensures old(count) == 0 ==> r.None? && count == 0
      ensures old(count) > 0 ==> r == Some(old(Contents())[old(count) - 1])
      ensures Contents() == if old(count) == 0 then old(Contents()) else old(Contents())[..old(count) - 1]
      ensures capacity == old(capacity) && data == old(data) && elementSize == old(elementSize)
    {
      if count == 0 {
        return None;
      }
      count := count - 1;
      return Some(data[count]);
    }

    /** ordered_vector_insert: puts `x` at `index` and moves the later
        elements up by one; an index past the end is ignored. */
    method Insert(index: nat, x: T)
      requires Valid()
      modifies this, data
      ensures Valid()
      ensures index > old(count) ==> Contents() == old(Contents()) && count == old(count)
      ensures index <= old(count) ==> Contents() == Inserted(old(Contents()), index, x)
      ensures elementSize == old(elementSize)
    {
      if index > count {
        return;
      }
      ghost var before := Contents();
      if count == capacity {
        Expand(index);
      } else {
        MakeRoom(index);
      }
      data[index] := x;
      count := count + 1;
      assert Contents() == data[..index] + [x] + data[index + 1..count];
    }

    /** The memmove of ordered_vector_insert when the buffer has room: the
        elements from `index` on move up by one. */
    method MakeRoom(index: nat)
      requires Valid() && index <= count < capacity
      modifies data
      ensures data[..index] == old(Contents())[..index]
      ensures data[index + 1..count + 1] == old(Contents())[index..]
    {
      ghost var before := Contents();
      var a := data;
      var i := count;
      while i != index
        invariant index <= i <= count
        invariant a[..i] == before[..i]
        invariant a[i + 1..count + 1] == before[i..]
        modifies a
        decreases i
      {
        a[i] := a[i - 1];
        i := i - 1;
      }
    }

    /** ordered_vector_erase_index: removes the element at `index` and moves
        the later ones down; an index past the last element is ignored. */
    method EraseIndex(index: nat)
      requires Valid()
      modifies this, data
      ensures Valid()
      ensures index >= old(count) ==> Contents() == old(Contents()) && count == old(count)
      ensures index < old(count) ==> Contents() == Erased(old(Contents()), index)
      ensures capacity == old(capacity) && data == old(data) && elementSize == old(elementSize)
    {
      if index >= count {
        return;
      }
      if index == count - 1 {
        var _ := Pop();
      } else {
        ShiftDown(index, count - index - 1);
        count := count - 1;
      }
    }

    /** The memmove of the erase operations: the `n` elements after `index`
        move down by one slot. */
    method ShiftDown(index: nat, n: nat)
      requires Valid() && data != null && index + n < count
      modifies data
      ensures data[..index] == old(data[..index])
      ensures data[index..index + n] == old(data[index + 1..index + 1 + n])
      ensures data[index + n..] == old(data[index + n..])
    {
      var i := 0;
      while i != n
        invariant 0 <= i <= n
        invariant data[..index] == old(data[..index])
        invariant data[index..index + i] == old(data[index + 1..index + 1 + i])
        invariant data[index + i..] == old(data[index + i..])
      {
        data[index + i] := data[index + i + 1];
        i := i + 1;
      }
    }

    /** ordered_vector_erase_element as written: for an element other than
        the last, it moves one element fewer than there are after it. */
    method EraseElementAsWritten(index: nat)
      requires Valid() && index < count
      modifies this, data
      ensures Valid()
      ensures Contents() == AsWrittenErase(old(Contents()), index)
      ensures capacity == old(capacity) && data == old(data) && elementSize == old(elementSize)
    {
      if index != count - 1 {
        ghost var s := Contents();
        var n := count - index - 2;
        ShiftDown(index, n);
        assert data[index + n..count - 1] == [s[count - 2]];
        assert data[..count - 1] == data[..index] + data[index..index + n] + data[index + n..count - 1];
      }
      count := count - 1;
    }

    /** ordered_vector_erase_element as evidently intended: the same result
        as erasing by index. */
    method EraseElement(index: nat)
      requires Valid() && index < count
      modifies this, data
      ensures Valid()
      ensures Contents() == Erased(old(Contents()), index)
      ensures capacity == old(capacity) && data == old(data) && elementSize == old(elementSize)
    {
      ghost var s := Contents();
      if index != count - 1 {
        var n := count - index - 1;
        ShiftDown(index, n);
        assert data[..index] == s[..index];
        assert data[index..index + n] == s[index + 1..];
        assert data[..count - 1] == data[..index] + data[index..index + n];
      } else {
        assert data[..count - 1] == s[..index];
      }
      count := count - 1;
    }

    /** ordered_vector_get_element: the element at `index`, or NULL past the
        end. */
    function GetElement(index: nat): (r: Option<T>)
      reads this, data
      requires Valid()
      ensures index >= count <==> r.None?
      ensures r.Some? ==> r.value == Contents()[index]
    {
      if index >= count then None else Some(data[index])
    }
  }

  /** What ordered_vector_erase_element as written leaves: the elements
      after `index` move down, except that the last one is not moved and the
      one before it stays duplicated in its place. */
  function AsWrittenErase<T>(s: seq<T>, index: nat): (r: seq<T>)
    requires index < |s|
    ensures |r| == |s| - 1
  {
    if index == |s| - 1 then s[..index]
    else s[..index] + s[index + 1..|s| - 1] + [s[|s| - 2]]
  }

  /** The as-written erase loses the last element whenever it differs from
      the one before it, as in the sequence the module's unit test uses. */
  lemma AsWrittenEraseLosesLast()
    ensures AsWrittenErase([53, 24, 73, 43, 65], 1) == [53, 73, 43, 43]
    ensures Erased([53, 24, 73, 43, 65], 1) == [53, 73, 43, 65]
  {
  }

  /** The as-written erase agrees with the intended one exactly when the
      erased element is the last, or the last two elements are equal. */
  lemma AsWrittenEraseAgreement<T>(s: seq<T>, index: nat)
    requires index < |s|
    ensures AsWrittenErase(s, index) == Erased(s, index)
        <==> index == |s| - 1 || s[|s| - 1] == s[|s| - 2]
  {
    var intended := Erased(s, index);
    if index < |s| - 1 {
      assert AsWrittenErase(s, index)[|s| - 2] == s[|s| - 2];
      assert intended[|s| - 2] == s[|s| - 1];
      if s[|s| - 1] == s[|s| - 2] {
        assert s[index + 1..] == s[index + 1..|s| - 1] + [s[|s| - 1]];
      }
    }
  }
}

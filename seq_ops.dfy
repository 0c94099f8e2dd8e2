/** Positional insertion and removal on sequences, the abstract effect of
    the containers' insert and erase operations. */
module SeqOps {
  /** `s` with `x` inserted at `i`: the earlier elements stay, the later
      ones move up by one. */
  function Inserted<T>(s: seq<T>, i: nat, x: T): (r: seq<T>)
    requires i <= |s|
    ensures |r| == |s| + 1 && r[i] == x
    ensures forall j :: 0 <= j < i ==> r[j] == s[j]
    ensures forall j :: i < j < |r| ==> r[j] == s[j - 1]
  {
    s[..i] + [x] + s[i..]
  }

  /** `s` without its element at `i`: the earlier elements stay, the later
      ones move down by one. */
  function Erased<T>(s: seq<T>, i: nat): (r: seq<T>)
    requires i < |s|
    ensures |r| == |s| - 1
    ensures forall j :: 0 <= j < i ==> r[j] == s[j]
    ensures forall j :: i <= j < |r| ==> r[j] == s[j + 1]
  {
    s[..i] + s[i + 1..]
  }

  /** Erasing what was just inserted at the same index restores the
      vector. */
  lemma EraseUndoesInsert<T>(s: seq<T>, i: nat, x: T)
    requires i <= |s|
    ensures Erased(Inserted(s, i, x), i) == s
  {
    var r := Erased(Inserted(s, i, x), i);
    assert forall j :: 0 <= j < |s| ==> r[j] == s[j];
  }

  /** Re-inserting the erased element at its index restores the vector. */
  lemma InsertUndoesErase<T>(s: seq<T>, i: nat)
    requires i < |s|
    ensures Inserted(Erased(s, i), i, s[i]) == s
  {
    var r := Inserted(Erased(s, i), i, s[i]);
    assert forall j :: 0 <= j < |s| ==> r[j] == s[j];
  }

  /** Erasing takes away exactly one occurrence of the erased element. */
  lemma ErasedMultiset<T>(s: seq<T>, i: nat)
    requires i < |s|
    ensures multiset(Erased(s, i)) == multiset(s) - multiset{s[i]}
  {
    assert s == s[..i] + [s[i]] + s[i + 1..];
  }

  /** Index of the first occurrence of `x` in `s`. */
  function FirstIndex<T(==)>(s: seq<T>, x: T): (i: nat)
    requires x in s
    ensures i < |s| && s[i] == x
    ensures forall j :: 0 <= j < i ==> s[j] != x
  {
    if s[0] == x then 0 else 1 + FirstIndex(s[1..], x)
  }

  /** No element occurs twice. */
  predicate Distinct<T(==)>(s: seq<T>)
  {
    forall i, j :: 0 <= i < j < |s| ==> s[i] != s[j]
  }

  /** Appending a new element keeps the elements distinct. */
  lemma AppendedDistinct<T>(s: seq<T>, x: T)
    requires Distinct(s) && x !in s
    ensures Distinct(s + [x])
  {
    var r := s + [x];
    forall a, b | 0 <= a < b < |r|
      ensures r[a] != r[b]
    {
      assert r[a] == s[a];
      if b == |s| {
        assert r[b] == x;
      } else {
        assert r[b] == s[b];
      }
    }
  }

  /** Removing an element keeps the others distinct. */
  lemma ErasedDistinct<T>(s: seq<T>, i: nat)
    requires i < |s| && Distinct(s)
    ensures Distinct(Erased(s, i))
  {
    var r := Erased(s, i);
    forall a, b | 0 <= a < b < |r|
      ensures r[a] != r[b]
    {
      var a' := if a < i then a else a + 1;
      var b' := if b < i then b else b + 1;
      assert r[a] == s[a'] && r[b] == s[b'];
    }
  }
}

/** The doubly linked list of util/src/util/linked_list.c. Nodes are heap
    objects relinked in place; `tail` is the oldest node and `head` the
    newest, `next` points towards the head and `prev` towards the tail. The
    `void*` payload is a value of `D` compared by equality, and the outcome
    of `malloc` is a parameter. */
module LinkedList {
  import opened Wrappers
  import opened SeqOps

  class Node<D> {
    var prev: Node?<D>
    var next: Node?<D>
    const data: D

    constructor (prev: Node?<D>, data: D)
      ensures this.prev == prev && this.next == null && this.data == data
    {
      this.prev := prev;
      this.next := null;
      this.data := data;
    }
  }

  /** The payloads of a run of nodes, in the same order. */
  function Payloads<D>(ns: seq<Node<D>>): (r: seq<D>)
    ensures |r| == |ns|
    ensures forall i :: 0 <= i < |ns| ==> r[i] == ns[i].data
  {
    if ns == [] then [] else Payloads(ns[..|ns| - 1]) + [ns[|ns| - 1].data]
  }

  /** Appending a node appends its payload. */
  lemma PayloadsAppended<D>(ns: seq<Node<D>>, n: Node<D>)
    ensures Payloads(ns + [n]) == Payloads(ns) + [n.data]
  {
    assert (ns + [n])[..|ns|] == ns;
  }

  /** Unlinking a node removes its payload at the same position. */
  lemma PayloadsErased<D>(ns: seq<Node<D>>, i: nat)
    requires i < |ns|
    ensures Payloads(Erased(ns, i)) == Erased(Payloads(ns), i)
  {
  }

  /** The links of `ns` form one chain: each node points back to the one
      before it and on to the one after it, and to nothing at either end. */
  ghost predicate Chained<D>(ns: seq<Node<D>>)
    reads ns
  {
    && (forall i {:trigger ns[i].next} :: 0 <= i < |ns| - 1 ==> ns[i].next == ns[i + 1])
    && (forall i {:trigger ns[i].prev} :: 0 < i < |ns| ==> ns[i].prev == ns[i - 1])
    && (ns != [] ==> ns[0].prev == null && ns[|ns| - 1].next == null)
  }

  /** A chain whose last node now points at a new node that points back at
      it is still a chain with the new node appended. */
  lemma ChainAppend<D>(ns: seq<Node<D>>, n: Node<D>)
    requires forall i {:trigger ns[i].next} :: 0 <= i < |ns| - 1 ==> ns[i].next == ns[i + 1]
    requires forall i {:trigger ns[i].prev} :: 0 < i < |ns| ==> ns[i].prev == ns[i - 1]
    requires ns != [] ==> ns[0].prev == null && ns[|ns| - 1].next == n
    requires n.prev == (if ns == [] then null else ns[|ns| - 1]) && n.next == null
    ensures Chained(ns + [n])
  {
    var t := ns + [n];
    forall i | 0 <= i < |t| - 1
      ensures t[i].next == t[i + 1]
    {
      assert t[i] == ns[i];
    }
    forall i | 0 < i < |t|
      ensures t[i].prev == t[i - 1]
    {
      assert t[i - 1] == ns[i - 1];
    }
  }

  /** If every link of a chain but those around node `i` is as before,
      and the neighbours of node `i` point at each other, then the nodes
      other than `i` form a chain. */
  lemma UnlinkKeepsChain<D>(ns: seq<Node<D>>, i: nat)
    requires i < |ns|
    requires forall j {:trigger ns[j].prev} :: 0 < j < |ns| && j != i + 1 ==> ns[j].prev == ns[j - 1]
    requires forall j {:trigger ns[j].next} :: 0 <= j < |ns| - 1 && j + 1 != i ==> ns[j].next == ns[j + 1]
    requires i != 0 ==> ns[0].prev == null
    requires i != |ns| - 1 ==> ns[|ns| - 1].next == null
    requires i > 0 ==> ns[i - 1].next == (if i == |ns| - 1 then null else ns[i + 1])
    requires i < |ns| - 1 ==> ns[i + 1].prev == (if i == 0 then null else ns[i - 1])
    ensures Chained(Erased(ns, i))
  {
    var r := Erased(ns, i);
    forall j | 0 < j < |r|
      ensures r[j].prev == r[j - 1]
    {
      if j == i {
        assert r[j] == ns[i + 1];
      } else if j < i {
        assert r[j] == ns[j] && r[j - 1] == ns[j - 1];
      } else {
        assert r[j] == ns[j + 1] && r[j - 1] == ns[j];
      }
    }
    forall j | 0 <= j < |r| - 1
      ensures r[j].next == r[j + 1]
    {
      if j + 1 == i {
        assert r[j] == ns[i - 1] && r[j + 1] == ns[i + 1];
      } else if j + 1 < i {
        assert r[j] == ns[j] && r[j + 1] == ns[j + 1];
      } else {
        assert r[j] == ns[j + 1] && r[j + 1] == ns[j + 2];
      }
    }
  }

  class List<D(==)> {
    var count: int
    var head: Node?<D>
    var tail: Node?<D>
    /** The nodes from the tail to the head. */
    ghost var nodes: seq<Node<D>>

    /** The links form one chain from `tail` to `head` through exactly the
        nodes of `nodes`, each once, and `count` is its length. */
    ghost predicate Valid()
      reads this, nodes
    {
      && count == |nodes|
      && (nodes == [] ==> head == null && tail == null)
      && (nodes != [] ==> tail == nodes[0] && head == nodes[|nodes| - 1])
      && Chained(nodes)
      && Distinct(nodes)
    }

    /** The payloads from the tail to the head, i.e. in push order. */
    ghost function Elements(): seq<D>
      reads this
    {
      Payloads(nodes)
    }

    /** list_init_list: an empty list. */
    constructor Init()
      ensures Valid() && fresh(this)
      ensures count == 0 && head == null && tail == null
      ensures Elements() == []
    {
      count := 0;
      head := null;
      tail := null;
      nodes := [];
    }

    /** list_clear: releases the nodes from the tail on and leaves the list
        empty. */
    method Clear()
      requires Valid()
      modifies this
      ensures Valid()
      ensures count == 0 && head == null && tail == null
      ensures Elements() == []
    {
      ghost var k := 0;
      while tail != null
        invariant 0 <= k <= |nodes|
        invariant tail == if k < |nodes| then nodes[k] else null
        invariant nodes == old(nodes)
        invariant forall i :: 0 <= i < |nodes| - 1 ==> nodes[i].next == nodes[i + 1]
        invariant nodes != [] ==> nodes[|nodes| - 1].next == null
        decreases |nodes| - k
      {
        tail := tail.next;
        k := k + 1;
      }
      head := null;
      count := 0;
      nodes := [];
    }

    /** list_push: a new node becomes the head; returns false, with the list
        unchanged, when `malloc` fails. */
    method Push(x: D, allocOk: bool) returns (ok: bool)
      requires Valid()
      modifies this, head
      ensures Valid()
      ensures ok == allocOk
      ensures ok ==> Elements() == old(Elements()) + [x] && count == old(count) + 1
      ensures ok ==> head.data == x && fresh(head)
      ensures !ok ==> Elements() == old(Elements()) && count == old(count)
    {
      if !allocOk {
        return false;
      }
      ghost var ns := nodes;
      var node := new Node(head, x);
      AppendedDistinct(ns, node);
      if head == null {
        tail := node;
      } else {
        assert forall i :: 0 <= i < |ns| - 1 ==> ns[i] != head;
        head.next := node;
      }
      ChainAppend(ns, node);
      PayloadsAppended(ns, node);
      head := node;
      count := count + 1;
      nodes := ns + [node];
      return true;
    }

    /** list_pop: removes the head and returns its payload; NULL when the
        list is empty. */
    method Pop() returns (r: Option<D>)
      requires Valid()
      modifies this, nodes
      ensures Valid()
      ensures old(count) == 0 <==> r.None?
      ensures r.None? ==> Elements() == old(Elements())
      ensures r.Some? ==> r.value == old(Elements())[old(count) - 1]
      ensures r.Some? ==> Elements() == old(Elements())[..old(count) - 1] && count == old(count) - 1
    {
      var node := head;
      if node == null {
        return None;
      }
      assert node.prev == if |nodes| == 1 then null else nodes[|nodes| - 2];
      head := node.prev;
      if head != null {
        head.next := null;
      } else {
        tail := null;
      }
      count := count - 1;
      nodes := nodes[..|nodes| - 1];
      assert Payloads(old(nodes))[..|nodes|] == Payloads(nodes);
      return Some(node.data);
    }

    /** list_erase_node: unlinks `node`, which must be in the list, joins its
        neighbours, fixes head and tail, and returns its payload. */
    method EraseNode(node: Node<D>) returns (r: D)
      requires Valid() && node in nodes
      modifies this, nodes
      ensures Valid()
      ensures r == node.data
      ensures Elements() == Erased(old(Elements()), old(NodeIndex(node)))
      ensures count == old(count) - 1
    {
      ghost var i := NodeIndex(node);
      ghost var ns := nodes;
      Unlink(node, i);
      r := node.data;
      Forget(i);
      PayloadsErased(ns, i);
    }

    /** The bookkeeping of list_erase_node once node `i` is unlinked: the
        count drops by one and the node leaves the ghost sequence. */
    method Forget(ghost i: nat)
      requires i < |nodes| && count == |nodes| && Distinct(nodes)
      requires Chained(Erased(nodes, i))
      requires |nodes| == 1 ==> head == null && tail == null
      requires |nodes| > 1 ==> tail == Erased(nodes, i)[0] && head == Erased(nodes, i)[|nodes| - 2]
      modifies this
      ensures Valid()
      ensures nodes == Erased(old(nodes), i) && count == old(count) - 1
      ensures head == old(head) && tail == old(tail)
    {
      ErasedDistinct(nodes, i);
      count := count - 1;
      nodes := Erased(nodes, i);
    }

    /** The pointer surgery of list_erase_node: the neighbours of node `i`
        are pointed at each other, or `tail`/`head` move past it at either
        end, so that the other nodes form one chain. */
    method Unlink(node: Node<D>, ghost i: nat)
      requires Valid() && i < |nodes| && nodes[i] == node
      modifies this, nodes
      ensures nodes == old(nodes) && count == old(count)
      ensures Chained(Erased(nodes, i))
      ensures |nodes| == 1 ==> head == null && tail == null
      ensures |nodes| > 1 ==> tail == Erased(nodes, i)[0] && head == Erased(nodes, i)[|nodes| - 2]
    {
      ghost var ns := nodes;
      var prev := node.prev;
      var next := node.next;
      assert prev == if i == 0 then null else ns[i - 1];
      assert next == if i == |ns| - 1 then null else ns[i + 1];
      if prev != null {
        prev.next := next;
      } else {
        tail := next;
      }
      if next != null {
        next.prev := prev;
      } else {
        head := prev;
      }
      forall j | 0 < j < |ns| && j != i + 1
        ensures ns[j].prev == ns[j - 1]
      {
        assert ns[j] != next;
      }
      forall j | 0 <= j < |ns| - 1 && j + 1 != i
        ensures ns[j].next == ns[j + 1]
      {
        assert ns[j] != prev;
      }
      UnlinkKeepsChain(ns, i);
    }

    /** Position of a node of the list, counted from the tail. */
    ghost function NodeIndex(node: Node<D>): (i: nat)
      reads this, nodes
      requires Valid() && node in nodes
      ensures i < |nodes| && nodes[i] == node
    {
      FirstIndex(nodes, node)
    }

    /** list_erase_element: walks from the tail and erases the first node
        whose payload is `x`; false, with the list unchanged, when there is
        none. */
    method EraseElement(x: D) returns (found: bool)
      requires Valid()
      modifies this, nodes
      ensures Valid()
      ensures found <==> x in old(Elements())
      ensures found ==> Elements() == Erased(old(Elements()), FirstIndex(old(Elements()), x))
      ensures !found ==> Elements() == old(Elements()) && count == old(count)
    {
      var current := tail;
      ghost var k := 0;
      while current != null
        invariant 0 <= k <= |nodes|
        invariant current == if k < |nodes| then nodes[k] else null
        invariant forall j :: 0 <= j < k ==> Elements()[j] != x
        decreases |nodes| - k
      {
        if current.data == x {
          assert Elements()[k] == x;
          assert FirstIndex(Elements(), x) == k;
          var _ := EraseNode(current);
          return true;
        }
        current := current.next;
        k := k + 1;
      }
      return false;
    }
  }
}

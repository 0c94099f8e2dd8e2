/** The property tree of util/src/util/ptree.c: nodes hold an optional value,
    a link to their parent and a hashed vector of children keyed by name;
    a dotted key such as "a.b.c" names a path from a node. The nodes are
    kept in a store indexed by node identifiers, which stand for the
    pointers of the C code; a child container is a map from key to node. */
module PropertyTree {
  import opened Wrappers
  import opened LibC

  type NodeId = nat

  /** `struct ptree_t`: the parent link, the value and the children. */
  datatype PNode<V> = PNode(parent: Option<NodeId>, value: Option<V>, children: map<string, NodeId>)

  type Store<V> = map<NodeId, PNode<V>>

  /** Every parent is a stored node of strictly lower rank than its child,
      so that walking up from any node ends. */
  ghost predicate Ranked<V>(s: Store<V>, d: map<NodeId, nat>)
  {
    forall n | n in s ::
      n in d && (s[n].parent.Some? ==> s[n].parent.value in s && s[n].parent.value in d
                                        && d[s[n].parent.value] < d[n])
  }

  /** Every child of a stored node is stored. */
  predicate ChildrenStored<V>(s: Store<V>)
  {
    forall n, k | n in s && k in s[n].children :: s[n].children[k] in s
  }

  /** The links of the tree agree: a node's parent lists it among its
      children, every child names its container as its parent, and no node
      is listed twice in one container. Ranks are bounded by `bound` and
      identifiers stay below `next`, the next one to hand out. */
  ghost predicate Linked<V>(s: Store<V>, d: map<NodeId, nat>, bound: nat, next: NodeId)
  {
    && Ranked(s, d)
    && ChildrenStored(s)
    && (forall n | n in s :: n < next && d[n] <= bound)
    && (forall n | n in s && s[n].parent.Some? :: n in s[s[n].parent.value].children.Values)
    && (forall n, k | n in s && k in s[n].children :: s[s[n].children[k]].parent == Some(n))
    && (forall n, k1, k2 | n in s && k1 in s[n].children && k2 in s[n].children
          && s[n].children[k1] == s[n].children[k2] :: k1 == k2)
  }

  /** `a` is `m` or one of its ancestors. */
  predicate Under<V>(s: Store<V>, ghost d: map<NodeId, nat>, a: NodeId, m: NodeId)
    requires Ranked(s, d) && m in s
    decreases d[m]
  {
    m == a || (s[m].parent.Some? && Under(s, d, a, s[m].parent.value))
  }

  /** `a` is a proper ancestor of `m`. */
  predicate Above<V>(s: Store<V>, ghost d: map<NodeId, nat>, a: NodeId, m: NodeId)
    requires Ranked(s, d) && m in s
  {
    s[m].parent.Some? && Under(s, d, a, s[m].parent.value)
  }

  /** Ancestry does not depend on the ranks chosen. */
  lemma {:induction false} UnderRankFree<V>(s: Store<V>, d1: map<NodeId, nat>, d2: map<NodeId, nat>, a: NodeId, m: NodeId)
    requires Ranked(s, d1) && Ranked(s, d2) && m in s
    ensures Under(s, d1, a, m) == Under(s, d2, a, m)
    decreases d1[m]
  {
    if m != a && s[m].parent.Some? {
      UnderRankFree(s, d1, d2, a, s[m].parent.value);
    }
  }

  /** Ancestry is transitive. */
  lemma {:induction false} UnderTrans<V>(s: Store<V>, d: map<NodeId, nat>, a: NodeId, b: NodeId, c: NodeId)
    requires Ranked(s, d) && b in s && c in s
    requires Under(s, d, a, b) && Under(s, d, b, c)
    ensures Under(s, d, a, c)
    decreases d[c]
  {
    if c != b {
      UnderTrans(s, d, a, b, s[c].parent.value);
    }
  }

  /** An ancestor has a lower rank. */
  lemma {:induction false} UnderRank<V>(s: Store<V>, d: map<NodeId, nat>, a: NodeId, m: NodeId)
    requires Ranked(s, d) && m in s && Under(s, d, a, m)
    ensures a in s && a in d && d[a] <= d[m]
    decreases d[m]
  {
    if m != a {
      UnderRank(s, d, a, s[m].parent.value);
    }
  }

  /** Two parentless ancestors of a node are the same node: each node has
      exactly one root. */
  lemma {:induction false} RootUnique<V>(s: Store<V>, d: map<NodeId, nat>, a: NodeId, b: NodeId, m: NodeId)
    requires Ranked(s, d) && m in s
    requires Under(s, d, a, m) && Under(s, d, b, m)
    requires a in s && b in s && s[a].parent.None? && s[b].parent.None?
    ensures a == b
    decreases d[m]
  {
    if m != a && m != b {
      RootUnique(s, d, a, b, s[m].parent.value);
    }
  }

  // ---------------------------------------------------------------------
  // ptree_get_node

  /** ptree_get_node_recurse: while a node is at hand and segments remain,
      look the next segment up among its children; a missing child ends the
      walk with no node. */
  function GetNodeRecurse<V>(s: Store<V>, t: Option<NodeId>, path: seq<string>): (r: Option<NodeId>)
    requires ChildrenStored(s) && (t.Some? ==> t.value in s)
    ensures r.Some? ==> r.value in s
    ensures r.Some? ==> t.Some?
    decreases |path|
  {
    if path != [] && t.Some? then
      var child := if path[0] in s[t.value].children then Some(s[t.value].children[path[0]]) else None;
      GetNodeRecurse(s, child, path[1..])
    else t
  }

  /** ptree_get_node: prefixes the key with a dummy root segment "n.",
      tokenises it on '.', drops that first token and walks the rest. The
      copy made by cat_strings may fail to allocate, which yields NULL. */
  function GetNode<V>(s: Store<V>, root: NodeId, key: string, allocOk: bool): (r: Option<NodeId>)
    requires ChildrenStored(s) && root in s
    ensures r.Some? ==> r.value in s
  {
    if !allocOk then None
    else GetNodeRecurse(s, Some(root), Tokens("n." + key, '.')[1..])
  }

  /** The dummy segment makes ptree_get_node walk exactly the segments of
      the key. */
  lemma GetNodeWalksSegments<V>(s: Store<V>, root: NodeId, key: string)
    requires ChildrenStored(s) && root in s
    ensures GetNode(s, root, key, true) == GetNodeRecurse(s, Some(root), Tokens(key, '.'))
  {
    assert "n." + key == "n" + ['.'] + key;
    TokensOfWord("n", '.', key);
  }

  /** Walking `p + q` is walking `p`, then `q` from where `p` ended. */
  lemma {:induction false} GetNodeConcat<V>(s: Store<V>, t: Option<NodeId>, p: seq<string>, q: seq<string>)
    requires ChildrenStored(s) && (t.Some? ==> t.value in s)
    ensures GetNodeRecurse(s, t, p + q) == GetNodeRecurse(s, GetNodeRecurse(s, t, p), q)
    decreases |p|
  {
    if p != [] && t.Some? {
      assert (p + q)[0] == p[0] && (p + q)[1..] == p[1..] + q;
      var child := if p[0] in s[t.value].children then Some(s[t.value].children[p[0]]) else None;
      GetNodeConcat(s, child, p[1..], q);
    } else if p == [] {
      assert p + q == q;
    } else {
      GetNodeNone(s, p + q);
      GetNodeNone(s, q);
    }
  }

  /** Once no node is at hand, the walk yields no node. */
  lemma {:induction false} GetNodeNone<V>(s: Store<V>, path: seq<string>)
    requires ChildrenStored(s)
    ensures GetNodeRecurse(s, None, path) == None
  {
  }

  /** A segment missing below the node a prefix reaches makes the whole
      walk yield no node, whatever follows. */
  lemma GetNodeMissingSegment<V>(s: Store<V>, n: NodeId, p: seq<string>, key: string, q: seq<string>)
    requires ChildrenStored(s) && n in s
    requires GetNodeRecurse(s, Some(n), p).Some?
    requires key !in s[GetNodeRecurse(s, Some(n), p).value].children
    ensures GetNodeRecurse(s, Some(n), p + [key] + q) == None
  {
    GetNodeConcat(s, Some(n), p, [key] + q);
    assert p + [key] + q == p + ([key] + q);
    GetNodeNone(s, q);
  }

  /** A node a non-empty path reaches lies strictly below the start. */
  lemma {:induction false} GetNodeBelow<V>(s: Store<V>, d: map<NodeId, nat>, bound: nat, next: NodeId,
                                           n: NodeId, path: seq<string>)
    requires Linked(s, d, bound, next) && n in s
    requires GetNodeRecurse(s, Some(n), path).Some?
    ensures Under(s, d, n, GetNodeRecurse(s, Some(n), path).value)
    ensures path != [] ==> Above(s, d, n, GetNodeRecurse(s, Some(n), path).value)
    decreases |path|
  {
    if path != [] {
      var c := s[n].children[path[0]];
      var r := GetNodeRecurse(s, Some(c), path[1..]).value;
      GetNodeBelow(s, d, bound, next, c, path[1..]);
      assert Under(s, d, n, c);
      UnderTrans(s, d, n, c, r);
      if r == c {
        assert s[r].parent == Some(n);
      } else {
        assert Under(s, d, c, s[r].parent.value);
        UnderTrans(s, d, n, c, s[r].parent.value);
      }
    }
  }

  // ---------------------------------------------------------------------
  // ptree_node_is_child_of

  /** ptree_node_is_child_of: `node` is one of `tree`'s children or lies
      below one of them. */
  function NodeIsChildOf<V>(s: Store<V>, ghost d: map<NodeId, nat>, ghost bound: nat, ghost next: NodeId,
                            node: NodeId, tree: NodeId): bool
    requires Linked(s, d, bound, next) && tree in s
    decreases bound - d[tree]
  {
    exists k | k in s[tree].children ::
      s[tree].children[k] == node || NodeIsChildOf(s, d, bound, next, node, s[tree].children[k])
  }

  /** The search of the children finds exactly the nodes of which `tree`
      is a proper ancestor. */
  lemma NodeIsChildOfIsAbove<V>(s: Store<V>, d: map<NodeId, nat>, bound: nat, next: NodeId,
                                node: NodeId, tree: NodeId)
    requires Linked(s, d, bound, next) && tree in s && node in s
    ensures NodeIsChildOf(s, d, bound, next, node, tree) <==> Above(s, d, tree, node)
  {
    if NodeIsChildOf(s, d, bound, next, node, tree) {
      ChildOfImpliesAbove(s, d, bound, next, node, tree);
    }
    if Above(s, d, tree, node) {
      AboveImpliesChildOf(s, d, bound, next, node, tree);
    }
  }

  lemma {:induction false} ChildOfImpliesAbove<V>(s: Store<V>, d: map<NodeId, nat>, bound: nat, next: NodeId,
                                                  node: NodeId, tree: NodeId)
    requires Linked(s, d, bound, next) && tree in s && node in s
    requires NodeIsChildOf(s, d, bound, next, node, tree)
    ensures Above(s, d, tree, node)
    decreases bound - d[tree]
  {
    var k :| k in s[tree].children &&
      (s[tree].children[k] == node || NodeIsChildOf(s, d, bound, next, node, s[tree].children[k]));
    var c := s[tree].children[k];
    if c == node {
      assert s[node].parent == Some(tree);
    } else {
      ChildOfImpliesAbove(s, d, bound, next, node, c);
      assert Under(s, d, tree, c);
      UnderTrans(s, d, tree, c, s[node].parent.value);
    }
  }

  lemma {:induction false} AboveImpliesChildOf<V>(s: Store<V>, d: map<NodeId, nat>, bound: nat, next: NodeId,
                                                  node: NodeId, tree: NodeId)
    requires Linked(s, d, bound, next) && tree in s && node in s
    requires Above(s, d, tree, node)
    ensures NodeIsChildOf(s, d, bound, next, node, tree)
    decreases d[node]
  {
    var p := s[node].parent.value;
    var k :| k in s[p].children && s[p].children[k] == node;
    if p == tree {
      assert s[tree].children[k] == node;
    } else {
      AboveImpliesChildOf(s, d, bound, next, p, tree);
      ChildOfExtends(s, d, bound, next, p, node, k, tree);
    }
  }

  /** If `p` lies below `tree`, so does every child of `p`. */
  lemma {:induction false} ChildOfExtends<V>(s: Store<V>, d: map<NodeId, nat>, bound: nat, next: NodeId,
                                             p: NodeId, node: NodeId, k: string, tree: NodeId)
    requires Linked(s, d, bound, next) && tree in s && p in s
    requires k in s[p].children && s[p].children[k] == node
    requires NodeIsChildOf(s, d, bound, next, p, tree)
    ensures NodeIsChildOf(s, d, bound, next, node, tree)
    decreases bound - d[tree]
  {
    var j :| j in s[tree].children &&
      (s[tree].children[j] == p || NodeIsChildOf(s, d, bound, next, p, s[tree].children[j]));
    var c := s[tree].children[j];
    if c == p {
      assert s[p].children[k] == node;
      assert NodeIsChildOf(s, d, bound, next, node, c);
    } else {
      ChildOfExtends(s, d, bound, next, p, node, k, c);
    }
  }

  // ---------------------------------------------------------------------
  // Stores before and after an update

  /** Ancestry depends only on the parent links: a store that keeps the
      parent of every node of `s` agrees with `s` on the ancestors of
      those nodes. */
  lemma {:induction false} UnderSameParents<V>(s: Store<V>, d: map<NodeId, nat>, t: Store<V>, e: map<NodeId, nat>,
                                              a: NodeId, m: NodeId)
    requires Ranked(s, d) && Ranked(t, e) && m in s
    requires forall n | n in s :: n in t && t[n].parent == s[n].parent
    ensures Under(t, e, a, m) == Under(s, d, a, m)
    decreases d[m]
  {
    if m != a && s[m].parent.Some? {
      UnderSameParents(s, d, t, e, a, s[m].parent.value);
    }
  }

  /** Every node of `s` is still in `t` with the same parent and value, and
      keeps every child it had. */
  ghost predicate Grown<V>(s: Store<V>, t: Store<V>)
  {
    forall m | m in s ::
      m in t && t[m].parent == s[m].parent && t[m].value == s[m].value
      && s[m].children.Items <= t[m].children.Items
  }

  /** ptree_add_node on the store: node `c` becomes the child of `n` under
      `key`, with the given value and no children. */
  function Added<V>(s: Store<V>, n: NodeId, key: string, c: NodeId, value: Option<V>): (t: Store<V>)
    requires n in s
    ensures t.Keys == s.Keys + {c}
  {
    s[n := s[n].(children := s[n].children[key := c])][c := PNode(Some(n), value, map[])]
  }

  /** Adding a child under a key `n` does not hold keeps the tree linked;
      the new node ranks just below its parent. */
  lemma AddedLinked<V>(s: Store<V>, d: map<NodeId, nat>, bound: nat, next: NodeId, n: NodeId, key: string, value: Option<V>,
                       t: Store<V>, e: map<NodeId, nat>, b: nat)
    requires Linked(s, d, bound, next) && n in s && key !in s[n].children
    requires t == Added(s, n, key, next, value) && e == d[next := d[n] + 1]
    requires b == if d[n] + 1 > bound then d[n] + 1 else bound
    ensures Linked(t, e, b, next + 1)
  {
    AddedRanked(s, d, bound, next, n, key, value);
    AddedChildLinks(s, d, bound, next, n, key, value);
    AddedParentLinks(s, d, bound, next, n, key, value);
    AddedInjective(s, d, bound, next, n, key, value);
  }

  /** After ptree_add_node every child is stored and names its container. */
  lemma AddedChildLinks<V>(s: Store<V>, d: map<NodeId, nat>, bound: nat, next: NodeId, n: NodeId, key: string,
                           value: Option<V>)
    requires Linked(s, d, bound, next) && n in s
    ensures var t := Added(s, n, key, next, value);
      && ChildrenStored(t)
      && forall m, k | m in t && k in t[m].children :: t[t[m].children[k]].parent == Some(m)
  {
    var t := Added(s, n, key, next, value);
    assert next !in s;
    forall m, k | m in t && k in t[m].children
      ensures t[m].children[k] in t && t[t[m].children[k]].parent == Some(m)
    {
      if m != n || k != key {
        assert m in s && k in s[m].children && t[m].children[k] == s[m].children[k];
      }
    }
  }

  /** After ptree_add_node every node is listed by its parent. */
  lemma AddedParentLinks<V>(s: Store<V>, d: map<NodeId, nat>, bound: nat, next: NodeId, n: NodeId, key: string,
                            value: Option<V>)
    requires Linked(s, d, bound, next) && n in s && key !in s[n].children
    ensures var t := Added(s, n, key, next, value);
      forall m | m in t && t[m].parent.Some? :: t[m].parent.value in t && m in t[t[m].parent.value].children.Values
  {
    var t := Added(s, n, key, next, value);
    assert next !in s;
    forall m | m in t && t[m].parent.Some?
      ensures t[m].parent.value in t && m in t[t[m].parent.value].children.Values
    {
      if m != next {
        var p := s[m].parent.value;
        var k :| k in s[p].children && s[p].children[k] == m;
        assert k in t[p].children && t[p].children[k] == m;
      } else {
        assert t[n].children[key] == next;
      }
    }
  }

  /** After ptree_add_node no node is listed twice by one parent. */
  lemma AddedInjective<V>(s: Store<V>, d: map<NodeId, nat>, bound: nat, next: NodeId, n: NodeId, key: string,
                          value: Option<V>)
    requires Linked(s, d, bound, next) && n in s
    ensures var t := Added(s, n, key, next, value);
      forall m, k1, k2 | m in t && k1 in t[m].children && k2 in t[m].children
        && t[m].children[k1] == t[m].children[k2] :: k1 == k2
  {
    var t := Added(s, n, key, next, value);
    assert next !in s;
    forall m, k1, k2 | m in t && k1 in t[m].children && k2 in t[m].children
        && t[m].children[k1] == t[m].children[k2]
      ensures k1 == k2
    {
      if m == n && (k1 == key || k2 == key) {
        assert t[m].children[k1] == next && t[m].children[k2] == next;
      }
    }
  }

  lemma AddedRanked<V>(s: Store<V>, d: map<NodeId, nat>, bound: nat, next: NodeId, n: NodeId, key: string, value: Option<V>)
    requires Linked(s, d, bound, next) && n in s
    ensures Ranked(Added(s, n, key, next, value), d[next := d[n] + 1])
    ensures forall m | m in Added(s, n, key, next, value) ::
              m < next + 1 && d[next := d[n] + 1][m] <= if d[n] + 1 > bound then d[n] + 1 else bound
  {
    var t := Added(s, n, key, next, value);
    var e := d[next := d[n] + 1];
    var b := if d[n] + 1 > bound then d[n] + 1 else bound;
    assert next !in s;
    forall m | m in t
      ensures m in e
      ensures t[m].parent.Some? ==> t[m].parent.value in t && t[m].parent.value in e && e[t[m].parent.value] < e[m]
      ensures m < next + 1 && e[m] <= b
    {
      if m != next {
        assert t[m].parent == s[m].parent;
      }
    }
    assert Ranked(t, e);
  }

  /** Adding a node keeps every node of the store with its links. */
  lemma AddedGrown<V>(s: Store<V>, n: NodeId, key: string, c: NodeId, value: Option<V>)
    requires n in s && c !in s && key !in s[n].children
    ensures Grown(s, Added(s, n, key, c, value))
  {
    var t := Added(s, n, key, c, value);
    assert s[n].children.Items <= t[n].children.Items;
  }

  /** The bindings of a children map other than those holding `c`. */
  function Without(children: map<string, NodeId>, c: NodeId): (r: map<string, NodeId>)
    ensures r.Keys <= children.Keys
    ensures forall k | k in children :: k in r <==> children[k] != c
    ensures forall k | k in r :: r[k] == children[k]
  {
    map k | k in children && children[k] != c :: children[k]
  }

  /** ptree_destroy on the store: `n` and every node below it are gone,
      and `n`'s parent no longer lists it. */
  function Pruned<V>(s: Store<V>, ghost d: map<NodeId, nat>, n: NodeId): (t: Store<V>)
    requires Ranked(s, d) && n in s
    ensures forall m :: m in t <==> m in s && !Under(s, d, n, m)
  {
    map m | m in s && !Under(s, d, n, m) ::
      if s[n].parent == Some(m) then s[m].(children := Without(s[m].children, n)) else s[m]
  }

  /** Pruning a subtree keeps the rest of the tree linked. */
  lemma PrunedLinked<V>(s: Store<V>, d: map<NodeId, nat>, bound: nat, next: NodeId, n: NodeId)
    requires Linked(s, d, bound, next) && n in s
    ensures Linked(Pruned(s, d, n), d, bound, next)
  {
    var t := Pruned(s, d, n);
    forall m | m in t && t[m].parent.Some?
      ensures t[m].parent.value in t
    {
      var p := t[m].parent.value;
      assert Under(s, d, n, p) ==> Under(s, d, n, m);
    }
    forall m, k | m in t && k in t[m].children
      ensures t[m].children[k] in t
    {
      var c := t[m].children[k];
      assert s[c].parent == Some(m);
      assert c != n;
      assert !Under(s, d, n, m);
    }
    forall m | m in t && t[m].parent.Some?
      ensures m in t[t[m].parent.value].children.Values
    {
      var p := t[m].parent.value;
      var k :| k in s[p].children && s[p].children[k] == m;
      assert k in t[p].children;
    }
  }

  /** Pruning removes no node of `s` outside the subtree and touches no
      node but `n`'s parent. */
  lemma PrunedKeeps<V>(s: Store<V>, d: map<NodeId, nat>, bound: nat, next: NodeId, n: NodeId, m: NodeId)
    requires Linked(s, d, bound, next) && n in s && m in s && !Under(s, d, n, m)
    ensures m in Pruned(s, d, n)
    ensures s[n].parent != Some(m) ==> Pruned(s, d, n)[m] == s[m]
    ensures s[n].parent == Some(m) ==> Pruned(s, d, n)[m] == s[m].(children := Without(s[m].children, n))
  {
  }

  /** No node of a store lies below a node the store does not hold. */
  lemma NotUnderNew<V>(s: Store<V>, d: map<NodeId, nat>, t: Store<V>, e: map<NodeId, nat>, c: NodeId, m: NodeId)
    requires Ranked(s, d) && Ranked(t, e) && m in s && c !in s
    requires forall n | n in s :: n in t && t[n].parent == s[n].parent
    ensures !Under(t, e, c, m)
  {
    UnderSameParents(s, d, t, e, c, m);
    if Under(s, d, c, m) {
      UnderRank(s, d, c, m);
    }
  }

  /** What ptree_set_recurse does to the store `s`, giving `t`: the frame
      part of SetOutcome.
      - no node of `s` loses its parent, its value or a child, and nodes
        outside the subtree of `node` do not change at all;
      - new nodes get identifiers from `next` on and lie below the child of
        `node` under `key`;
      - `node` gains at most the binding for `key`, to a new node. */
  ghost predicate SetFrame<V>(s: Store<V>, d: map<NodeId, nat>, next: NodeId,
                              t: Store<V>, e: map<NodeId, nat>, tnext: NodeId, node: NodeId, key: string)
    requires Ranked(s, d) && ChildrenStored(s) && Ranked(t, e) && ChildrenStored(t) && node in s
  {
    && next <= tnext
    && Grown(s, t)
    && (forall m | m in s && !Under(s, d, node, m) :: t[m] == s[m])
    && (forall m | m in t && m !in s :: next <= m)
    && (forall m | m in t && m !in s :: key in t[node].children && Under(t, e, t[node].children[key], m))
    && t[node].children.Keys <= s[node].children.Keys + {key}
    && (key !in s[node].children && key in t[node].children ==> t[node].children[key] !in s)
  }

  /** The result part of SetOutcome:
      - new nodes hold no value unless they are the result;
      - a result is the node the path reaches, new, holding `value` and
        without children;
      - a path that already leads to a node changes nothing and yields no
        result, and one that does not succeeds when the budget of
        allocations exceeds the number of segments after `key`. */
  ghost predicate SetResult<V>(s: Store<V>, t: Store<V>, node: NodeId, key: string, rest: seq<string>,
                               value: Option<V>, budget: nat, r: Option<NodeId>)
    requires ChildrenStored(s) && ChildrenStored(t) && node in s && node in t
  {
    && (forall m | m in t && m !in s :: t[m].value.None? || r == Some(m))
    && (r.Some? ==> GetNodeRecurse(t, Some(node), [key] + rest) == r && r.value !in s
                    && t[r.value].value == value && t[r.value].children == map[])
    && (GetNodeRecurse(s, Some(node), [key] + rest).Some? ==> r.None? && t == s)
    && (GetNodeRecurse(s, Some(node), [key] + rest).None? && budget > |rest| ==> r.Some?)
  }

  /** What ptree_set_recurse does, from store `s` to store `t`. */
  ghost predicate SetOutcome<V>(s: Store<V>, d: map<NodeId, nat>, next: NodeId,
                                t: Store<V>, e: map<NodeId, nat>, tnext: NodeId,
                                node: NodeId, key: string, rest: seq<string>, value: Option<V>, budget: nat,
                                r: Option<NodeId>)
    requires Ranked(s, d) && ChildrenStored(s) && Ranked(t, e) && ChildrenStored(t) && node in s
  {
    SetFrame(s, d, next, t, e, tnext, node, key) && SetResult(s, t, node, key, rest, value, budget, r)
  }

  /** A store that does not change meets the frame. */
  lemma SetFrameRefl<V>(s: Store<V>, d: map<NodeId, nat>, next: NodeId, node: NodeId, key: string)
    requires Ranked(s, d) && ChildrenStored(s) && node in s
    ensures SetFrame(s, d, next, s, d, next, node, key)
  {
  }

  /** ptree_add_node meets the frame. */
  lemma AddedFrame<V>(s: Store<V>, d: map<NodeId, nat>, bound: nat, next: NodeId, node: NodeId, key: string,
                      value: Option<V>, t: Store<V>, e: map<NodeId, nat>)
    requires Linked(s, d, bound, next) && node in s && key !in s[node].children
    requires t == Added(s, node, key, next, value) && e == d[next := d[node] + 1]
    ensures Ranked(t, e) && ChildrenStored(t)
    ensures SetFrame(s, d, next, t, e, next + 1, node, key)
  {
    AddedLinked(s, d, bound, next, node, key, value, t, e, if d[node] + 1 > bound then d[node] + 1 else bound);
    AddedGrown(s, node, key, next, value);
    assert Under(t, e, next, next) && next !in s;
    AddedKeepsOthers(s, d, bound, next, node, key, value, t);
  }

  /** ptree_add_node changes no node outside the subtree of `node`. */
  lemma AddedKeepsOthers<V>(s: Store<V>, d: map<NodeId, nat>, bound: nat, next: NodeId, node: NodeId, key: string,
                            value: Option<V>, t: Store<V>)
    requires Ranked(s, d) && node in s && next !in s && t == Added(s, node, key, next, value)
    ensures forall m | m in s && !Under(s, d, node, m) :: t[m] == s[m]
  {
    forall m | m in s && !Under(s, d, node, m)
      ensures t[m] == s[m]
    {
      assert m != node;
    }
  }

  /** Frames compose along ptree_set_recurse: a step from `node` to its
      child under `key`, then the recursion from that child. */
  lemma SetFrameStep<V>(s0: Store<V>, d0: map<NodeId, nat>, n0: NodeId,
                        s1: Store<V>, d1: map<NodeId, nat>, n1: NodeId,
                        s2: Store<V>, d2: map<NodeId, nat>, n2: NodeId,
                        node: NodeId, key: string, child: NodeId, key1: string)
    requires Ranked(s0, d0) && ChildrenStored(s0) && Ranked(s1, d1) && ChildrenStored(s1)
    requires Ranked(s2, d2) && ChildrenStored(s2) && node in s0
    requires SetFrame(s0, d0, n0, s1, d1, n1, node, key)
    requires key in s1[node].children && s1[node].children[key] == child && s1[child].parent == Some(node)
    requires child in s2 && forall k | k in s2[child].children :: s2[s2[child].children[k]].parent == Some(child)
    requires SetFrame(s1, d1, n1, s2, d2, n2, child, key1)
    ensures SetFrame(s0, d0, n0, s2, d2, n2, node, key)
    ensures s2[node] == s1[node]
  {
    // `node` is not below `child`, so the recursion leaves it alone
    if Under(s1, d1, child, node) {
      UnderRank(s1, d1, child, node);
    }
    assert s2[node] == s1[node];
    forall m | m in s0 && !Under(s0, d0, node, m)
      ensures s2[m] == s0[m]
    {
      UnderSameParents(s0, d0, s1, d1, node, m);
      if Under(s1, d1, child, m) {
        assert Under(s1, d1, node, child);
        UnderTrans(s1, d1, node, child, m);
      }
    }
    forall m | m in s2 && m !in s0
      ensures Under(s2, d2, child, m)
    {
      if m !in s1 {
        var g := s2[child].children[key1];
        assert Under(s2, d2, child, g);
        UnderTrans(s2, d2, child, g, m);
      } else {
        UnderSameParents(s1, d1, s2, d2, child, m);
      }
    }
  }

  /** The last segment: ptree_add_node either adds the leaf or changes
      nothing. */
  lemma SetResultLeaf<V>(s0: Store<V>, s2: Store<V>, n0: NodeId, node: NodeId, key: string, value: Option<V>,
                         budget: nat, r: Option<NodeId>)
    requires ChildrenStored(s0) && ChildrenStored(s2) && node in s0 && n0 !in s0
    requires r.Some? <==> budget > 0 && key !in s0[node].children
    requires r.None? ==> s2 == s0
    requires r.Some? ==> r.value == n0 && s2 == Added(s0, node, key, n0, value)
    ensures node in s2 && SetResult(s0, s2, node, key, [], value, budget, r)
  {
    assert [key] + [] == [key];
    if r.Some? {
      assert s2[node].children[key] == n0;
      assert GetNodeRecurse(s2, Some(n0), []) == r;
    } else if key in s0[node].children {
      assert GetNodeRecurse(s0, Some(node), [key]).Some?;
    }
  }

  /** One level of ptree_set_recurse, result part. */
  lemma SetResultStep<V>(s0: Store<V>, s1: Store<V>, s2: Store<V>, n0: NodeId,
                         node: NodeId, key: string, child: NodeId, rest: seq<string>, value: Option<V>,
                         budget: nat, left: nat, r: Option<NodeId>)
    requires ChildrenStored(s0) && ChildrenStored(s1) && ChildrenStored(s2) && node in s0 && rest != []
    requires || (key in s0[node].children && child == s0[node].children[key] && s1 == s0 && left == budget)
             || (key !in s0[node].children && child == n0 && n0 !in s0 && budget > 0 && left == budget - 1
                 && s1 == Added(s0, node, key, n0, None))
    requires child in s1 && child in s2 && node in s2 && s2[node] == s1[node] && Grown(s1, s2)
    requires SetResult(s1, s2, child, rest[0], rest[1..], value, left, r)
    ensures SetResult(s0, s2, node, key, rest, value, budget, r)
  {
    assert rest == [rest[0]] + rest[1..];
    assert ([key] + rest)[0] == key && ([key] + rest)[1..] == rest;
    assert s1[node].children[key] == child;
    if key !in s0[node].children {
      assert s1[child].children == map[];
      assert GetNodeRecurse(s1, Some(child), rest) == None;
    }
  }

  /** A children map that only gains bindings, and at most the one for
      `k0`, changes size exactly when it gains `k0`; the same size means
      the same map. This is how ptree_set reads a change from the child
      count. */
  lemma ChildCountChanged(a: map<string, NodeId>, b: map<string, NodeId>, k0: string)
    requires a.Items <= b.Items && b.Keys <= a.Keys + {k0}
    ensures |b| != |a| <==> k0 in b && k0 !in a
    ensures |b| == |a| ==> b == a
  {
    assert a.Keys <= b.Keys by {
      forall k | k in a
        ensures k in b
      {
        assert (k, a[k]) in b.Items;
      }
    }
    if k0 in b && k0 !in a {
      assert b.Keys == a.Keys + {k0};
      assert |b.Keys| == |a.Keys| + 1;
    } else {
      assert b.Keys == a.Keys;
      forall k | k in a
        ensures b[k] == a[k]
      {
        assert (k, a[k]) in b.Items;
      }
      assert b == a;
    }
  }

  /** Destroying a node created after `s0` keeps every node of `s0`. */
  lemma RollbackKeeps<V>(s0: Store<V>, d0: map<NodeId, nat>, s1: Store<V>, d1: map<NodeId, nat>, c: NodeId,
                         t: Store<V>)
    requires Ranked(s0, d0) && Ranked(s1, d1) && Grown(s0, s1) && c in s1 && c !in s0
    requires t == Pruned(s1, d1, c)
    ensures forall m | m in s0 :: m in t && (s1[c].parent != Some(m) ==> t[m] == s1[m])
  {
    forall m | m in s0
      ensures m in t && (s1[c].parent != Some(m) ==> t[m] == s1[m])
    {
      NotUnderNew(s0, d0, s1, d1, c, m);
    }
  }

  /** The rollback of ptree_set: pruning the new child `c` of `root` that
      the failed recursion left behind restores `root`'s children and
      keeps every node that was there before. */
  lemma SetRollback<V>(s0: Store<V>, d0: map<NodeId, nat>, s1: Store<V>, d1: map<NodeId, nat>,
                       root: NodeId, k0: string, c: NodeId, t: Store<V>)
    requires Ranked(s0, d0) && ChildrenStored(s0) && Ranked(s1, d1) && root in s0
    requires Grown(s0, s1)
    requires s1[root].children.Keys <= s0[root].children.Keys + {k0}
    requires k0 in s1[root].children && k0 !in s0[root].children
    requires s1[root].children[k0] !in s0 && s1[root].children[k0] in s1
    requires s1[s1[root].children[k0]].parent == Some(root)
    requires c == s1[root].children[k0] && t == Pruned(s1, d1, c)
    ensures root in t && t[root].children == s0[root].children
    ensures Grown(s0, t)
  {
    RollbackKeeps(s0, d0, s1, d1, c, t);
    WithoutNew(s0[root].children, s1[root].children, k0, c);
  }

  /** Erasing the one binding added to `a` under `k0` gives `a` back. */
  lemma WithoutNew(a: map<string, NodeId>, b: map<string, NodeId>, k0: string, c: NodeId)
    requires a.Items <= b.Items && b.Keys <= a.Keys + {k0}
    requires k0 in b && k0 !in a && b[k0] == c && c !in a.Values
    ensures Without(b, c) == a
  {
    forall k | k in a
      ensures k in b && b[k] == a[k] && a[k] != c
    {
      assert (k, a[k]) in b.Items;
    }
  }

  // ---------------------------------------------------------------------
  // ptree_set_parent on the store

  /** The children of the old parent `q` once bsthv_erase_element has
      removed the first binding holding `node`. When `q` is also the new
      parent, it holds `node` twice, under its old key and under `key`;
      `newFirst` says whether the binding under `key` comes first in the
      iteration order of the hashed vector and so is the one erased. */
  function ErasedFromOld(children: map<string, NodeId>, node: NodeId, key: string, sameParent: bool,
                         newFirst: bool): map<string, NodeId>
  {
    if sameParent && newFirst then children - {key}
    else if sameParent then Without(children, node)[key := node]
    else Without(children, node)
  }

  /** No node is listed twice in a children map. */
  predicate Injective(c: map<string, NodeId>)
  {
    forall k1, k2 | k1 in c && k2 in c && c[k1] == c[k2] :: k1 == k2
  }

  /** The children of a node `n` after ptree_set_parent: `node` is added
      under `key` if `n` is the new parent, then the first binding holding
      `node` is erased if `n` is the old parent. */
  function MovedChildren(c: map<string, NodeId>, node: NodeId, key: string, isNew: bool, isOld: bool,
                         newFirst: bool): map<string, NodeId>
  {
    var c1 := if isNew then c[key := node] else c;
    if isOld then ErasedFromOld(c1, node, key, isNew, newFirst) else c1
  }

  /** A children map after a move lists `node` exactly when it belongs to
      the new parent, keeps every other binding, and still lists no node
      twice. */
  lemma MovedChildrenFacts(c: map<string, NodeId>, node: NodeId, key: string, isNew: bool, isOld: bool,
                           newFirst: bool)
    requires Injective(c)
    requires isNew ==> key !in c
    requires isOld <==> node in c.Values
    ensures var r := MovedChildren(c, node, key, isNew, isOld, newFirst);
      && Injective(r)
      && (forall k | k in r && r[k] != node :: k in c && c[k] == r[k])
      && (forall k | k in c && c[k] != node :: k in r && r[k] == c[k])
      && (node in r.Values <==> isNew)
  {
    var r := MovedChildren(c, node, key, isNew, isOld, newFirst);
    if isNew {
      if isOld && newFirst {
        var k0 :| k0 in c && c[k0] == node;
        assert k0 != key && k0 in r;
      } else {
        assert key in r && r[key] == node;
      }
    }
    forall k1, k2 | k1 in r && k2 in r && r[k1] == r[k2]
      ensures k1 == k2
    {
      if r[k1] == node && isNew && isOld && !newFirst {
        assert k1 == key && k2 == key;
      } else if r[k1] == node && isNew && !isOld {
        assert k1 == key && k2 == key;
      }
    }
  }

  /** The store once ptree_set_parent has passed its checks: `node` is
      inserted into the children of `parent` under `key`, the first binding
      holding it is erased from its old parent's children, and its parent
      link is set to `parent`. */
  function Moved<V>(s: Store<V>, node: NodeId, parent: Option<NodeId>, key: string, newFirst: bool): (t: Store<V>)
    requires node in s
    ensures t.Keys == s.Keys
  {
    map m | m in s ::
      PNode(if m == node then parent else s[m].parent, s[m].value,
            MovedChildren(s[m].children, node, key, parent == Some(m), s[node].parent == Some(m), newFirst))
  }

  /** Moved is what the three steps of ptree_set_parent build: insert into
      the new parent, erase from the old one, set the parent link. */
  lemma MovedInSteps<V>(s: Store<V>, node: NodeId, parent: Option<NodeId>, key: string, newFirst: bool)
    requires node in s && (parent.Some? ==> parent.value in s && parent.value != node)
    requires s[node].parent.Some? ==> s[node].parent.value in s && s[node].parent.value != node
    ensures
      var s1 := if parent.Some? then
                  s[parent.value := s[parent.value].(children := s[parent.value].children[key := node])]
                else s;
      var s2 := if s[node].parent.Some? then
                  var q := s[node].parent.value;
                  s1[q := s1[q].(children := ErasedFromOld(s1[q].children, node, key, parent == Some(q), newFirst))]
                else s1;
      s2[node := s2[node].(parent := parent)] == Moved(s, node, parent, key, newFirst)
  {
    var s1 := if parent.Some? then
                s[parent.value := s[parent.value].(children := s[parent.value].children[key := node])]
              else s;
    var s2 := if s[node].parent.Some? then
                var q := s[node].parent.value;
                s1[q := s1[q].(children := ErasedFromOld(s1[q].children, node, key, parent == Some(q), newFirst))]
              else s1;
    var t := s2[node := s2[node].(parent := parent)];
    var u := Moved(s, node, parent, key, newFirst);
    forall m | m in s
      ensures t[m] == u[m]
    {
      var isNew := parent == Some(m);
      var isOld := s[node].parent == Some(m);
      assert s1[m].children == if isNew then s[m].children[key := node] else s[m].children;
      assert u[m].children == MovedChildren(s[m].children, node, key, isNew, isOld, newFirst);
    }
  }

  /** The ranks after a move below a node of rank `shift - 1`: the moved
      subtree sinks by `shift`, every other node keeps its rank. */
  ghost function Shifted<V>(s: Store<V>, d: map<NodeId, nat>, node: NodeId, shift: nat): map<NodeId, nat>
    requires Ranked(s, d)
  {
    map m | m in d :: if m in s && Under(s, d, node, m) then d[m] + shift else d[m]
  }

  /** The ranks that go with Moved. */
  ghost function MovedDepth<V>(s: Store<V>, d: map<NodeId, nat>, node: NodeId, parent: Option<NodeId>): map<NodeId, nat>
    requires Ranked(s, d) && (parent.Some? ==> parent.value in s)
  {
    if parent.Some? then Shifted(s, d, node, d[parent.value] + 1) else d
  }

  /** The rank bound that goes with Moved. */
  ghost function MovedBound<V>(s: Store<V>, d: map<NodeId, nat>, bound: nat, parent: Option<NodeId>): nat
    requires Ranked(s, d) && (parent.Some? ==> parent.value in s)
  {
    if parent.Some? then bound + d[parent.value] + 1 else bound
  }

  /** The checks ptree_set_parent makes before it changes anything. */
  predicate MoveAllowed<V>(s: Store<V>, ghost d: map<NodeId, nat>, node: NodeId, parent: Option<NodeId>, key: string)
    requires Ranked(s, d) && node in s && (parent.Some? ==> parent.value in s)
  {
    parent.Some? ==> !Under(s, d, node, parent.value) && key !in s[parent.value].children
  }

  lemma MovedRanked<V>(s: Store<V>, d: map<NodeId, nat>, bound: nat, next: NodeId,
                       node: NodeId, parent: Option<NodeId>, key: string, newFirst: bool)
    requires Linked(s, d, bound, next) && node in s && (parent.Some? ==> parent.value in s)
    requires MoveAllowed(s, d, node, parent, key)
    ensures parent.Some? ==> parent.value != node
    ensures Ranked(Moved(s, node, parent, key, newFirst), MovedDepth(s, d, node, parent))
    ensures forall m | m in s :: MovedDepth(s, d, node, parent)[m] <= MovedBound(s, d, bound, parent)
  {
    var t := Moved(s, node, parent, key, newFirst);
    var e := MovedDepth(s, d, node, parent);
    forall m | m in t
      ensures m in e
      ensures t[m].parent.Some? ==> t[m].parent.value in t && t[m].parent.value in e && e[t[m].parent.value] < e[m]
      ensures e[m] <= MovedBound(s, d, bound, parent)
    {
      if m != node && s[m].parent.Some? {
        var q := s[m].parent.value;
        assert t[m].parent == s[m].parent;
        assert Under(s, d, node, q) <==> Under(s, d, node, m);
      }
    }
  }

  lemma MovedLinks<V>(s: Store<V>, d: map<NodeId, nat>, bound: nat, next: NodeId,
                      node: NodeId, parent: Option<NodeId>, key: string, newFirst: bool)
    requires Linked(s, d, bound, next) && node in s && (parent.Some? ==> parent.value in s)
    requires parent.Some? ==> parent.value != node && key !in s[parent.value].children
    ensures var t := Moved(s, node, parent, key, newFirst);
      && ChildrenStored(t)
      && (forall n | n in t && t[n].parent.Some? :: n in t[t[n].parent.value].children.Values)
      && (forall n, k | n in t && k in t[n].children :: t[t[n].children[k]].parent == Some(n))
      && (forall n, k1, k2 | n in t && k1 in t[n].children && k2 in t[n].children
            && t[n].children[k1] == t[n].children[k2] :: k1 == k2)
  {
    var t := Moved(s, node, parent, key, newFirst);
    forall n | n in s
      ensures Injective(t[n].children)
      ensures forall k | k in t[n].children && t[n].children[k] != node ::
                k in s[n].children && s[n].children[k] == t[n].children[k]
      ensures forall k | k in s[n].children && s[n].children[k] != node ::
                k in t[n].children && t[n].children[k] == s[n].children[k]
      ensures node in t[n].children.Values <==> parent == Some(n)
    {
      assert Injective(s[n].children);
      if node in s[n].children.Values {
        var k :| k in s[n].children && s[n].children[k] == node;
      }
      MovedChildrenFacts(s[n].children, node, key, parent == Some(n), s[node].parent == Some(n), newFirst);
    }
    forall n, k | n in t && k in t[n].children
      ensures t[n].children[k] in t && t[t[n].children[k]].parent == Some(n)
    {
      var c := t[n].children[k];
      if c != node {
        assert s[n].children[k] == c;
      } else {
        assert c in t[n].children.Values;
      }
    }
    forall n | n in t && t[n].parent.Some?
      ensures n in t[t[n].parent.value].children.Values
    {
      if n != node {
        var q := s[n].parent.value;
        var k :| k in s[q].children && s[q].children[k] == n;
        assert k in t[q].children && t[q].children[k] == n;
      }
    }
  }

  /** A move that passed the checks keeps the tree linked. */
  lemma MovedLinked<V>(s: Store<V>, d: map<NodeId, nat>, bound: nat, next: NodeId,
                       node: NodeId, parent: Option<NodeId>, key: string, newFirst: bool)
    requires Linked(s, d, bound, next) && node in s && (parent.Some? ==> parent.value in s)
    requires MoveAllowed(s, d, node, parent, key)
    ensures parent.Some? ==> parent.value != node
    ensures Linked(Moved(s, node, parent, key, newFirst), MovedDepth(s, d, node, parent),
                   MovedBound(s, d, bound, parent), next)
  {
    MovedRanked(s, d, bound, next, node, parent, key, newFirst);
    MovedLinks(s, d, bound, next, node, parent, key, newFirst);
  }

  /** The moved subtree moves whole: the nodes below `node` are the same
      before and after the move. */
  lemma {:induction false} MovedKeepsSubtree<V>(s: Store<V>, d: map<NodeId, nat>, bound: nat, next: NodeId,
                                                node: NodeId, parent: Option<NodeId>, key: string, newFirst: bool,
                                                m: NodeId)
    requires Linked(s, d, bound, next) && node in s && (parent.Some? ==> parent.value in s)
    requires MoveAllowed(s, d, node, parent, key) && m in s
    ensures Ranked(Moved(s, node, parent, key, newFirst), MovedDepth(s, d, node, parent))
    ensures Under(Moved(s, node, parent, key, newFirst), MovedDepth(s, d, node, parent), node, m)
            == Under(s, d, node, m)
    decreases d[m]
  {
    MovedLinked(s, d, bound, next, node, parent, key, newFirst);
    if m != node && s[m].parent.Some? {
      MovedKeepsSubtree(s, d, bound, next, node, parent, key, newFirst, s[m].parent.value);
    }
  }

  /** A node outside the moved subtree keeps all its ancestors. */
  lemma {:induction false} MovedKeepsOthers<V>(s: Store<V>, d: map<NodeId, nat>, bound: nat, next: NodeId,
                                               node: NodeId, parent: Option<NodeId>, key: string, newFirst: bool,
                                               a: NodeId, m: NodeId)
    requires Linked(s, d, bound, next) && node in s && (parent.Some? ==> parent.value in s)
    requires MoveAllowed(s, d, node, parent, key) && m in s && !Under(s, d, node, m)
    ensures Ranked(Moved(s, node, parent, key, newFirst), MovedDepth(s, d, node, parent))
    ensures Under(Moved(s, node, parent, key, newFirst), MovedDepth(s, d, node, parent), a, m)
            == Under(s, d, a, m)
    decreases d[m]
  {
    MovedLinked(s, d, bound, next, node, parent, key, newFirst);
    if m != a && s[m].parent.Some? {
      MovedKeepsOthers(s, d, bound, next, node, parent, key, newFirst, a, s[m].parent.value);
    }
  }

  /** After a move below `p`, `p` and each of its ancestors lie above every
      node of the moved subtree. */
  lemma MovedBelowParent<V>(s: Store<V>, d: map<NodeId, nat>, bound: nat, next: NodeId,
                            node: NodeId, p: NodeId, key: string, newFirst: bool, a: NodeId, m: NodeId)
    requires Linked(s, d, bound, next) && node in s && p in s
    requires MoveAllowed(s, d, node, Some(p), key) && m in s && Under(s, d, node, m)
    requires Under(s, d, a, p)
    ensures Ranked(Moved(s, node, Some(p), key, newFirst), MovedDepth(s, d, node, Some(p)))
    ensures Above(Moved(s, node, Some(p), key, newFirst), MovedDepth(s, d, node, Some(p)), a, m)
  {
    var t := Moved(s, node, Some(p), key, newFirst);
    var e := MovedDepth(s, d, node, Some(p));
    MovedLinked(s, d, bound, next, node, Some(p), key, newFirst);
    MovedKeepsSubtree(s, d, bound, next, node, Some(p), key, newFirst, m);
    MovedKeepsOthers(s, d, bound, next, node, Some(p), key, newFirst, a, p);
    assert m != a by {
      if m == a {
        UnderTrans(s, d, node, m, p);
      }
    }
    assert t[node].parent == Some(p) && Under(t, e, p, p);
    assert Under(t, e, p, node);
    UnderTrans(t, e, a, p, node);
    UnderTrans(t, e, a, node, m);
  }

  // ---------------------------------------------------------------------
  // ptree_clean on the store

  /** For a node strictly below `n`, the child of `n` it lies under. */
  ghost function Branch<V>(s: Store<V>, d: map<NodeId, nat>, n: NodeId, m: NodeId): (c: NodeId)
    requires Ranked(s, d) && m in s && Above(s, d, n, m)
    ensures c in s && s[c].parent == Some(n) && Under(s, d, c, m)
    decreases d[m]
  {
    if s[m].parent == Some(n) then m
    else
      var p := s[m].parent.value;
      var c := Branch(s, d, n, p);
      assert Under(s, d, p, m);
      UnderTrans(s, d, c, p, m);
      c
  }

  /** A node below a child `c` of `n` lies strictly below `n`, on the
      branch of `c`. */
  lemma {:induction false} BranchOf<V>(s: Store<V>, d: map<NodeId, nat>, n: NodeId, c: NodeId, m: NodeId)
    requires Ranked(s, d) && c in s && m in s && s[c].parent == Some(n) && Under(s, d, c, m)
    ensures Above(s, d, n, m) && Branch(s, d, n, m) == c
    decreases d[m]
  {
    if m != c {
      var p := s[m].parent.value;
      BranchOf(s, d, n, c, p);
      if p == n {
        UnderRank(s, d, c, n);
      }
    }
  }

  /** A children map that only loses bindings and keeps every key is the
      same map. */
  lemma SameChildren(a: map<string, NodeId>, b: map<string, NodeId>)
    requires a.Items <= b.Items && b.Keys <= a.Keys
    ensures a == b
  {
    forall k | k in a
      ensures k in b && b[k] == a[k]
    {
      assert (k, a[k]) in b.Items;
    }
  }

  /** `t` is `s` with some nodes removed and, in each remaining children
      map, exactly the bindings to removed nodes dropped. */
  ghost predicate Shrunk<V>(s: Store<V>, t: Store<V>)
  {
    && t.Keys <= s.Keys
    && (forall m | m in t ::
          t[m].parent == s[m].parent && t[m].value == s[m].value && t[m].children.Items <= s[m].children.Items)
    && (forall m, k | m in t && k in s[m].children :: k in t[m].children <==> s[m].children[k] in t)
  }

  /** What ptree_clean(n) does to the store `s`, giving `t`: it only drops
      nodes, each of them strictly below `n` and without a value, and
      afterwards no node strictly below `n` is a leaf without a value. */
  ghost predicate Cleaned<V>(s: Store<V>, d: map<NodeId, nat>, t: Store<V>, n: NodeId)
    requires Ranked(s, d) && Ranked(t, d) && n in s
  {
    && Shrunk(s, t)
    && (forall m | m in s && m !in t :: Above(s, d, n, m) && s[m].value.None?)
    && (forall m | m in t && Above(t, d, n, m) :: t[m].children != map[] || t[m].value.Some?)
  }

  /** The state of ptree_clean(n) part way through its loop over the
      children of `n`: `done` holds the children already cleaned (and
      dropped if they became empty leaves). Every node dropped so far lies
      on the branch of a done child and had no value; no node left on such
      a branch is an empty leaf; the other branches are untouched. */
  ghost predicate CleanInv<V>(s0: Store<V>, d: map<NodeId, nat>, st: Store<V>, n: NodeId, done: set<NodeId>)
    requires Ranked(s0, d) && n in s0
  {
    && Shrunk(s0, st) && n in st
    && DoneChildren(s0, n, done)
    && DroppedOnDone(s0, d, st, n, done)
    && NoEmptyOnDone(s0, d, st, n, done, {})
    && UntouchedOffDone(s0, d, st, n, done)
  }

  /** Every node of `done` is a child of `n`. */
  ghost predicate DoneChildren<V>(s0: Store<V>, n: NodeId, done: set<NodeId>)
  {
    forall c | c in done :: c in s0 && s0[c].parent == Some(n)
  }

  /** Every node missing from `st` had no value and lay on a branch of
      `done`. */
  ghost predicate DroppedOnDone<V>(s0: Store<V>, d: map<NodeId, nat>, st: Store<V>, n: NodeId, done: set<NodeId>)
    requires Ranked(s0, d)
  {
    forall m | m in s0 && m !in st :: s0[m].value.None? && Above(s0, d, n, m) && Branch(s0, d, n, m) in done
  }

  /** No node of `st` on a branch of `done`, other than those in `skip`, is
      a leaf without a value. */
  ghost predicate NoEmptyOnDone<V>(s0: Store<V>, d: map<NodeId, nat>, st: Store<V>, n: NodeId, done: set<NodeId>,
                                   skip: set<NodeId>)
    requires Ranked(s0, d)
  {
    forall m | m in st && m in s0 && m !in skip && Above(s0, d, n, m) && Branch(s0, d, n, m) in done ::
      st[m].children != map[] || st[m].value.Some?
  }

  /** Every node on a branch outside `done` is in `st` as it was in `s0`. */
  ghost predicate UntouchedOffDone<V>(s0: Store<V>, d: map<NodeId, nat>, st: Store<V>, n: NodeId, done: set<NodeId>)
    requires Ranked(s0, d)
  {
    forall m | m in s0 && Above(s0, d, n, m) && Branch(s0, d, n, m) !in done :: m in st && st[m] == s0[m]
  }

  /** Nodes on one branch below `n` share it with their children. */
  lemma BranchOfChild<V>(s: Store<V>, d: map<NodeId, nat>, n: NodeId, m: NodeId, x: NodeId)
    requires Ranked(s, d) && m in s && x in s && Above(s, d, n, m) && s[x].parent == Some(m)
    ensures Above(s, d, n, x) && Branch(s, d, n, x) == Branch(s, d, n, m)
  {
    var c := Branch(s, d, n, m);
    assert Under(s, d, m, x);
    UnderTrans(s, d, c, m, x);
    BranchOf(s, d, n, c, x);
  }

  /** ptree_clean(n) starts from the whole store with no child done. */
  lemma CleanInvStart<V>(s0: Store<V>, d: map<NodeId, nat>, n: NodeId)
    requires Ranked(s0, d) && ChildrenStored(s0) && n in s0
    ensures CleanInv(s0, d, s0, n, {})
  {
  }

  /** A node strictly below `n` in a shrunk store was strictly below `n`
      before. */
  lemma ShrunkAbove<V>(s0: Store<V>, d: map<NodeId, nat>, st: Store<V>, a: NodeId, m: NodeId)
    requires Ranked(s0, d) && Ranked(st, d) && Shrunk(s0, st) && m in st
    ensures Above(st, d, a, m) == Above(s0, d, a, m)
  {
    if st[m].parent.Some? {
      UnderSameParents(st, d, s0, d, a, st[m].parent.value);
    }
  }

  /** Once every child of `n` is done, the loop has cleaned below `n`. */
  lemma CleanInvEnd<V>(s0: Store<V>, d: map<NodeId, nat>, st: Store<V>, n: NodeId, done: set<NodeId>)
    requires Ranked(s0, d) && Ranked(st, d) && n in s0
    requires CleanInv(s0, d, st, n, done)
    requires forall c | c in s0 && s0[c].parent == Some(n) :: c in done
    ensures Cleaned(s0, d, st, n)
  {
    forall m | m in st && Above(st, d, n, m)
      ensures st[m].children != map[] || st[m].value.Some?
    {
      ShrunkAbove(s0, d, st, n, m);
    }
  }

  /** Every child names its container as its parent (a part of Linked). */
  ghost predicate ParentsMatch<V>(s: Store<V>)
    requires ChildrenStored(s)
  {
    forall n, k | n in s && k in s[n].children :: s[s[n].children[k]].parent == Some(n)
  }

  /** Shrinking twice is shrinking. */
  lemma ShrunkTrans<V>(s0: Store<V>, s1: Store<V>, s2: Store<V>)
    requires Shrunk(s0, s1) && Shrunk(s1, s2)
    ensures Shrunk(s0, s2)
  {
    forall m, k | m in s2 && k in s0[m].children
      ensures k in s2[m].children <==> s0[m].children[k] in s2
    {
      if k in s2[m].children {
        assert (k, s2[m].children[k]) in s1[m].children.Items;
      }
      if k in s1[m].children {
        assert (k, s1[m].children[k]) in s0[m].children.Items;
      }
    }
  }

  /** A node whose children all stay in a shrunk store keeps its children
      map. */
  lemma ShrunkKeepsChildren<V>(s1: Store<V>, s2: Store<V>, m: NodeId)
    requires Shrunk(s1, s2) && m in s2
    requires forall k | k in s1[m].children :: s1[m].children[k] in s2
    ensures s2[m] == s1[m]
  {
    SameChildren(s2[m].children, s1[m].children);
  }

  /** The nodes the recursive ptree_clean on the child `c` drops lie on
      the branch of `c`. */
  lemma CleanChildDrops<V>(s0: Store<V>, d: map<NodeId, nat>, st: Store<V>, s2: Store<V>, n: NodeId, c: NodeId)
    requires Ranked(s0, d) && Ranked(st, d) && Ranked(s2, d) && n in s0
    requires Shrunk(s0, st) && c in st && s0[c].parent == Some(n)
    requires Cleaned(st, d, s2, c)
    ensures forall m | m in st && m !in s2 :: Above(s0, d, n, m) && Branch(s0, d, n, m) == c
  {
    forall m | m in st && m !in s2
      ensures Above(s0, d, n, m) && Branch(s0, d, n, m) == c
    {
      assert Under(st, d, c, m);
      UnderSameParents(st, d, s0, d, c, m);
      BranchOf(s0, d, n, c, m);
    }
  }

  /** A node on another branch than `c`, or `n` itself, keeps its record
      through the recursive ptree_clean on `c`. */
  lemma CleanChildKeeps<V>(s0: Store<V>, d: map<NodeId, nat>, st: Store<V>, s2: Store<V>, n: NodeId, c: NodeId,
                           m: NodeId)
    requires Ranked(s0, d) && ChildrenStored(s0) && ParentsMatch(s0) && Ranked(st, d) && n in s0
    requires Shrunk(s0, st) && Shrunk(st, s2) && m in st && c in s2
    requires forall x | x in st && x !in s2 :: Above(s0, d, n, x) && Branch(s0, d, n, x) == c
    requires m == n || (Above(s0, d, n, m) && Branch(s0, d, n, m) != c)
    ensures m in s2 && s2[m] == st[m]
  {
    if m !in s2 && m == n {
      UnderRank(s0, d, n, s0[n].parent.value);
    }
    forall k | k in st[m].children
      ensures st[m].children[k] in s2
    {
      var x := st[m].children[k];
      assert (k, x) in s0[m].children.Items;
      assert x in s0 && s0[x].parent == Some(m);
      if x !in s2 {
        if m == n {
          BranchOf(s0, d, n, x, x);
        } else {
          BranchOfChild(s0, d, n, m, x);
        }
      }
    }
    ShrunkKeepsChildren(st, s2, m);
  }

  /** After the recursive ptree_clean on the child `c`, no node on a branch
      done so far, `c` aside, is an empty leaf. */
  lemma CleanAfterChildNoEmpty<V>(s0: Store<V>, d: map<NodeId, nat>, st: Store<V>, s2: Store<V>, n: NodeId, c: NodeId,
                           done: set<NodeId>)
    requires Ranked(s0, d) && ChildrenStored(s0) && ParentsMatch(s0) && Ranked(st, d) && Ranked(s2, d) && n in s0
    requires CleanInv(s0, d, st, n, done)
    requires c in s0 && s0[c].parent == Some(n) && c !in done && c in st
    requires Cleaned(st, d, s2, c)
    ensures NoEmptyOnDone(s0, d, s2, n, done + {c}, {c})
  {
    ShrunkTrans(s0, st, s2);
    NotAboveSelf(st, d, c);
    assert c in s2;
    CleanChildDrops(s0, d, st, s2, n, c);
    CleanChildKeeps(s0, d, st, s2, n, c, n);
    forall m | m in s2 && m in s0 && m !in {c} && Above(s0, d, n, m) && Branch(s0, d, n, m) in done + {c}
      ensures s2[m].children != map[] || s2[m].value.Some?
    {
      if Branch(s0, d, n, m) == c {
        ShrunkAbove(st, d, s2, c, m);
        ShrunkAbove(s0, d, st, c, m);
      } else {
        CleanChildKeeps(s0, d, st, s2, n, c, m);
      }
    }
  }

  /** After the recursive ptree_clean on the child `c`, the branches not
      yet visited are as they were. */
  lemma CleanAfterChildUntouched<V>(s0: Store<V>, d: map<NodeId, nat>, st: Store<V>, s2: Store<V>, n: NodeId, c: NodeId,
                           done: set<NodeId>)
    requires Ranked(s0, d) && ChildrenStored(s0) && ParentsMatch(s0) && Ranked(st, d) && Ranked(s2, d) && n in s0
    requires CleanInv(s0, d, st, n, done)
    requires c in s0 && s0[c].parent == Some(n) && c !in done && c in st
    requires Cleaned(st, d, s2, c)
    ensures UntouchedOffDone(s0, d, s2, n, done + {c})
  {
    ShrunkTrans(s0, st, s2);
    NotAboveSelf(st, d, c);
    assert c in s2;
    CleanChildDrops(s0, d, st, s2, n, c);
    CleanChildKeeps(s0, d, st, s2, n, c, n);
    forall m | m in s0 && Above(s0, d, n, m) && Branch(s0, d, n, m) !in done + {c}
      ensures m in s2 && s2[m] == s0[m]
    {
      CleanChildKeeps(s0, d, st, s2, n, c, m);
    }
  }

  /** The recursive ptree_clean on the child `c` keeps the loop's state,
      except that `c` itself may now be an empty leaf. */
  lemma CleanAfterChild<V>(s0: Store<V>, d: map<NodeId, nat>, st: Store<V>, s2: Store<V>, n: NodeId, c: NodeId,
                           done: set<NodeId>)
    requires Ranked(s0, d) && ChildrenStored(s0) && ParentsMatch(s0) && Ranked(st, d) && Ranked(s2, d) && n in s0
    requires CleanInv(s0, d, st, n, done)
    requires c in s0 && s0[c].parent == Some(n) && c !in done && c in st
    requires Cleaned(st, d, s2, c)
    ensures Shrunk(s0, s2) && n in s2 && c in s2 && s2[n] == st[n]
    ensures DroppedOnDone(s0, d, s2, n, done + {c})
    ensures NoEmptyOnDone(s0, d, s2, n, done + {c}, {c})
    ensures UntouchedOffDone(s0, d, s2, n, done + {c})
  {
    ShrunkTrans(s0, st, s2);
    NotAboveSelf(st, d, c);
    assert c in s2;
    CleanChildDrops(s0, d, st, s2, n, c);
    CleanChildKeeps(s0, d, st, s2, n, c, n);
    CleanAfterChildNoEmpty(s0, d, st, s2, n, c, done);
    CleanAfterChildUntouched(s0, d, st, s2, n, c, done);
  }

  /** No node lies strictly below itself. */
  lemma NotAboveSelf<V>(s: Store<V>, d: map<NodeId, nat>, n: NodeId)
    requires Ranked(s, d) && n in s
    ensures !Above(s, d, n, n)
  {
    if s[n].parent.Some? && Under(s, d, n, s[n].parent.value) {
      UnderRank(s, d, n, s[n].parent.value);
    }
  }

  /** Dropping a leaf and its binding keeps the tree linked. */
  lemma LeafDropLinked<V>(s: Store<V>, d: map<NodeId, nat>, bound: nat, next: NodeId, n: NodeId, k: string)
    requires Linked(s, d, bound, next) && n in s && k in s[n].children
    requires s[s[n].children[k]].children == map[]
    ensures Linked((s - {s[n].children[k]})[n := s[n].(children := s[n].children - {k})], d, bound, next)
  {
    var c: NodeId := s[n].children[k];
    var t := (s - {c})[n := s[n].(children := s[n].children - {k})];
    assert s[c].parent == Some(n);
    forall m | m in t && t[m].parent.Some?
      ensures t[m].parent.value in t
    {
      var p := t[m].parent.value;
      assert m in s[p].children.Values;
    }
    forall m, j | m in t && j in t[m].children
      ensures t[m].children[j] in t
    {
      if m != n {
        assert s[s[m].children[j]].parent == Some(m);
      }
    }
    forall m | m in t && t[m].parent.Some?
      ensures m in t[t[m].parent.value].children.Values
    {
      var p := t[m].parent.value;
      var j :| j in s[p].children && s[p].children[j] == m;
      assert j in t[p].children;
    }
  }

  /** Dropping one more stored node adds one to the count of nodes
      dropped. */
  lemma KeysDrop(a: set<NodeId>, b: set<NodeId>, c: NodeId)
    requires b <= a && c in b
    ensures |a - (b - {c})| == |a - b| + 1
  {
    assert a - (b - {c}) == (a - b) + {c};
  }

  /** Once every key of `n` is done, so is every child of `n`. */
  lemma AllChildrenDone<V>(s: Store<V>, d: map<NodeId, nat>, bound: nat, next: NodeId, n: NodeId, done: set<NodeId>)
    requires Linked(s, d, bound, next) && n in s
    requires forall k | k in s[n].children :: s[n].children[k] in done
    ensures forall c | c in s && s[c].parent == Some(n) :: c in done
  {
    forall c | c in s && s[c].parent == Some(n)
      ensures c in done
    {
      assert c in s[n].children.Values;
    }
  }

  /** Taking the key `k` off the pending keys and its child into `done`
      keeps the children under pending keys exactly those not done. */
  lemma PendingStep(children: map<string, NodeId>, keys: set<string>, done: set<NodeId>, k: string)
    requires Injective(children) && keys <= children.Keys && k in keys
    requires forall j | j in keys :: children[j] !in done
    requires forall j | j in children && j !in keys :: children[j] in done
    ensures forall j | j in keys - {k} :: children[j] !in done + {children[k]}
    ensures forall j | j in children && j !in keys - {k} :: children[j] in done + {children[k]}
  {
  }

  /** Nodes dropped in two rounds add up. */
  lemma KeysSplit(a: set<NodeId>, b: set<NodeId>, c: set<NodeId>)
    requires c <= b <= a
    ensures |a - c| == |a - b| + |b - c|
  {
    assert a - c == (a - b) + (b - c);
  }

  /** The child `c` stays, being no empty leaf: the loop moves on. */
  lemma CleanKeep<V>(s0: Store<V>, d: map<NodeId, nat>, s2: Store<V>, n: NodeId, c: NodeId, done: set<NodeId>)
    requires Ranked(s0, d) && n in s0
    requires DoneChildren(s0, n, done) && c in s0 && s0[c].parent == Some(n)
    requires Shrunk(s0, s2) && n in s2 && c in s2
    requires DroppedOnDone(s0, d, s2, n, done + {c})
    requires NoEmptyOnDone(s0, d, s2, n, done + {c}, {c})
    requires UntouchedOffDone(s0, d, s2, n, done + {c})
    requires s2[c].children != map[] || s2[c].value.Some?
    ensures CleanInv(s0, d, s2, n, done + {c})
  {
  }

  /** Dropping a child and its binding from a shrunk store shrinks it
      further. */
  lemma DropShrunk<V>(s0: Store<V>, s2: Store<V>, n: NodeId, k: string, c: NodeId)
    requires ChildrenStored(s0) && ParentsMatch(s0) && n in s0 && Injective(s0[n].children)
    requires Shrunk(s0, s2) && n in s2 && c in s2 && c != n && s0[c].parent == Some(n)
    requires k in s2[n].children && s2[n].children[k] == c
    ensures Shrunk(s0, (s2 - {c})[n := s2[n].(children := s2[n].children - {k})])
  {
    var s3 := (s2 - {c})[n := s2[n].(children := s2[n].children - {k})];
    assert (k, c) in s0[n].children.Items;
    forall m, j | m in s3 && j in s0[m].children
      ensures j in s3[m].children <==> s0[m].children[j] in s3
    {
      if s0[m].children[j] == c {
        assert s0[c].parent == Some(m);
      }
    }
  }

  /** The child `c` under `k` has become an empty leaf and is dropped:
      what is gone afterwards. */
  lemma CleanDropRemoved<V>(s0: Store<V>, d: map<NodeId, nat>, s2: Store<V>, n: NodeId, k: string, c: NodeId,
                            done: set<NodeId>)
    requires Ranked(s0, d) && n in s0 && c in s0 && s0[c].parent == Some(n)
    requires s2.Keys <= s0.Keys && n in s2 && c in s2 && s2[c].value == s0[c].value && s2[c].value.None?
    requires DroppedOnDone(s0, d, s2, n, done + {c})
    ensures DroppedOnDone(s0, d, (s2 - {c})[n := s2[n].(children := s2[n].children - {k})], n, done + {c})
  {
    BranchOf(s0, d, n, c, c);
  }

  /** The child `c` under `k` has become an empty leaf and is dropped:
      what stays. */
  lemma CleanDropStays<V>(s0: Store<V>, d: map<NodeId, nat>, s2: Store<V>, n: NodeId, k: string, c: NodeId,
                          done: set<NodeId>)
    requires Ranked(s0, d) && n in s0 && c in s0 && s0[c].parent == Some(n)
    requires s2.Keys <= s0.Keys && n in s2 && c in s2
    requires NoEmptyOnDone(s0, d, s2, n, done + {c}, {c})
    requires UntouchedOffDone(s0, d, s2, n, done + {c})
    ensures NoEmptyOnDone(s0, d, (s2 - {c})[n := s2[n].(children := s2[n].children - {k})], n, done + {c}, {})
    ensures UntouchedOffDone(s0, d, (s2 - {c})[n := s2[n].(children := s2[n].children - {k})], n, done + {c})
  {
    var s3 := (s2 - {c})[n := s2[n].(children := s2[n].children - {k})];
    NotAboveSelf(s0, d, n);
    BranchOf(s0, d, n, c, c);
    forall m | m in s3 && m in s0 && m !in {} && Above(s0, d, n, m) && Branch(s0, d, n, m) in done + {c}
      ensures s3[m].children != map[] || s3[m].value.Some?
    {
      assert m != n && s3[m] == s2[m];
    }
    forall m | m in s0 && Above(s0, d, n, m) && Branch(s0, d, n, m) !in done + {c}
      ensures m in s3 && s3[m] == s0[m]
    {
      assert m != n && m != c;
    }
  }

  /** The child `c` under `k` has become an empty leaf and is dropped:
      the loop moves on. */
  lemma CleanDrop<V>(s0: Store<V>, d: map<NodeId, nat>, s2: Store<V>, n: NodeId, k: string, c: NodeId,
                     done: set<NodeId>)
    requires Ranked(s0, d) && ChildrenStored(s0) && ParentsMatch(s0) && n in s0 && Injective(s0[n].children)
    requires DoneChildren(s0, n, done) && c in s0 && s0[c].parent == Some(n)
    requires Shrunk(s0, s2) && n in s2 && c in s2
    requires DroppedOnDone(s0, d, s2, n, done + {c})
    requires NoEmptyOnDone(s0, d, s2, n, done + {c}, {c})
    requires UntouchedOffDone(s0, d, s2, n, done + {c})
    requires k in s2[n].children && s2[n].children[k] == c && s2[c].children == map[] && s2[c].value.None?
    ensures CleanInv(s0, d, (s2 - {c})[n := s2[n].(children := s2[n].children - {k})], n, done + {c})
  {
    NotAboveSelf(s0, d, n);
    DropShrunk(s0, s2, n, k, c);
    CleanDropRemoved(s0, d, s2, n, k, c, done);
    CleanDropStays(s0, d, s2, n, k, c, done);
  }

  // ---------------------------------------------------------------------
  // The nodes in memory

  /** Every `struct ptree_t` the program holds: the store of nodes, the next
      identifier `malloc` hands out, and ghost ranks that make the parent
      links well founded. */
  class PTree<V(==)> {
    var store: Store<V>
    var next: NodeId
    ghost var depth: map<NodeId, nat>
    ghost var bound: nat

    ghost predicate Valid()
      reads this
    {
      Linked(store, depth, bound, next)
    }

    /** No node is allocated yet. */
    constructor Init()
      ensures Valid() && store == map[] && next == 0
    {
      store := map[];
      next := 0;
      depth := map[];
      bound := 0;
    }

    /** ptree_create: a new root holding `value`, with no parent and no
        children; NULL, with nothing changed, when `malloc` fails. */
    method Create(value: Option<V>, allocOk: bool) returns (r: Option<NodeId>)
      requires Valid()
      modifies this
      ensures Valid()
      ensures r.Some? <==> allocOk
      ensures r.None? ==> store == old(store)
      ensures r.Some? ==> r.value !in old(store)
      ensures r.Some? ==> store == old(store)[r.value := PNode(None, value, map[])]
    {
      if !allocOk {
        return None;
      }
      var id := next;
      store := store[id := PNode(None, value, map[])];
      depth := depth[id := 0];
      next := next + 1;
      r := Some(id);
    }

    /** ptree_get_root: follows the parent links up from `n`. The result is
        an ancestor of `n` without a parent, the only one there is by
        RootUnique. */
    method GetRoot(n: NodeId) returns (r: NodeId)
      requires Valid() && n in store
      ensures r in store && store[r].parent.None?
      ensures Under(store, depth, r, n)
    {
      r := n;
      while store[r].parent.Some?
        invariant r in store && Under(store, depth, r, n)
        decreases depth[r]
      {
        var p := store[r].parent.value;
        assert Under(store, depth, p, r);
        UnderTrans(store, depth, p, r, n);
        r := p;
      }
    }

    /** ptree_add_node: a new node holding `value` becomes the child of
        `node` under `key`; NULL, with nothing changed, when `malloc` fails
        or `node` already has a child under `key`. */
    method AddNode(node: NodeId, key: string, value: Option<V>, allocOk: bool) returns (child: Option<NodeId>)
      requires Valid() && node in store
      modifies this
      ensures Valid()
      ensures child.Some? <==> allocOk && key !in old(store[node].children)
      ensures child.None? ==> store == old(store) && next == old(next) && depth == old(depth)
      ensures child.Some? ==> child.value == old(next) && next == old(next) + 1
      ensures child.Some? ==> store == Added(old(store), node, key, child.value, value)
      ensures child.Some? ==> depth == old(depth)[child.value := old(depth[node]) + 1]
    {
      if !allocOk || key in store[node].children {
        return None;
      }
      var id := Attach(node, key, value);
      child := Some(id);
    }

    /** The allocation and insertion of ptree_add_node once both succeed:
        the next identifier becomes the child of `node` under `key`. */
    method Attach(node: NodeId, key: string, value: Option<V>) returns (id: NodeId)
      requires Valid() && node in store && key !in store[node].children
      modifies this
      ensures Valid()
      ensures id == old(next) && next == id + 1
      ensures store == Added(old(store), node, key, id, value)
      ensures depth == old(depth)[id := old(depth[node]) + 1]
    {
      id := next;
      ghost var s0, d0, b0 := store, depth, bound;
      ghost var rank := depth[node] + 1;
      store := Added(store, node, key, id, value);
      depth := depth[id := rank];
      bound := if rank > bound then rank else bound;
      next := id + 1;
      AddedLinked(s0, d0, b0, id, node, key, value, store, depth, bound);
    }
  
    /** ptree_set_recurse: `key` and then the segments of `rest` name a path
        from `node`. Each missing node on the way is created without a
        value, and the last one is created holding `value`; if it already
        exists, nothing changes and the result is NULL. `budget` is the
        number of `malloc` calls that succeed. Nodes created before a
        failing allocation stay in place. */
    method SetRecurse(node: NodeId, key: string, rest: seq<string>, value: Option<V>, budget: nat)
      returns (r: Option<NodeId>)
      requires Valid() && node in store
      modifies this
      ensures Valid()
      ensures SetOutcome(old(store), old(depth), old(next), store, depth, next, node, key, rest, value, budget, r)
      decreases |rest|
    {
      if rest == [] {
        r := SetLeaf(node, key, value, budget);
        return;
      }
      ghost var s0, d0, n0 := store, depth, next;
      var child, left := Descend(node, key, budget);
      if child.None? {
        SetFrameRefl(s0, d0, n0, node, key);
        SetResultLeaf(s0, store, n0, node, key, value, 0, None);
        return None;
      }
      ghost var s1, d1, n1 := store, depth, next;
      r := SetRecurse(child.value, rest[0], rest[1..], value, left);
      SetFrameStep(s0, d0, n0, s1, d1, n1, store, depth, next, node, key, child.value, rest[0]);
      SetResultStep(s0, s1, store, n0, node, key, child.value, rest, value, budget, left, r);
    }

    /** ptree_set_recurse at the last segment: the node is added under
        `key` holding `value`. */
    method SetLeaf(node: NodeId, key: string, value: Option<V>, budget: nat) returns (r: Option<NodeId>)
      requires Valid() && node in store
      modifies this
      ensures Valid()
      ensures SetOutcome(old(store), old(depth), old(next), store, depth, next, node, key, [], value, budget, r)
    {
      ghost var s0, d0, n0 := store, depth, next;
      r := AddNode(node, key, value, budget > 0);
      if r.Some? {
        AddedFrame(s0, d0, old(bound), n0, node, key, value, Added(s0, node, key, n0, value), d0[n0 := d0[node] + 1]);
      } else {
        SetFrameRefl(s0, d0, n0, node, key);
      }
      SetResultLeaf(s0, store, n0, node, key, value, budget, r);
    }

    /** ptree_set_recurse at a segment with more to follow: the child of
        `node` under `key`, added without a value if it is missing. `left`
        is what remains of the allocation budget; no child means that
        allocation failed, with nothing changed. */
    method Descend(node: NodeId, key: string, budget: nat) returns (child: Option<NodeId>, left: nat)
      requires Valid() && node in store
      modifies this
      ensures Valid()
      ensures child.None? ==> key !in old(store[node].children) && budget == 0
      ensures child.None? ==> store == old(store) && depth == old(depth) && next == old(next)
      ensures child.Some? ==> SetFrame(old(store), old(depth), old(next), store, depth, next, node, key)
      ensures child.Some? ==> key in store[node].children && store[node].children[key] == child.value
      ensures child.Some? ==> store[child.value].parent == Some(node)
      ensures child.Some? ==>
        || (key in old(store[node].children) && child.value == old(store[node].children[key])
            && store == old(store) && left == budget)
        || (key !in old(store[node].children) && child.value == old(next) && old(next) !in old(store)
            && budget > 0 && left == budget - 1 && store == Added(old(store), node, key, old(next), None))
    {
      ghost var s0, d0, n0 := store, depth, next;
      if key in store[node].children {
        child, left := Some(store[node].children[key]), budget;
        SetFrameRefl(s0, d0, n0, node, key);
        return;
      }
      child := AddNode(node, key, None, budget > 0);
      left := if budget > 0 then budget - 1 else 0;
      if child.Some? {
        AddedFrame(s0, d0, old(bound), n0, node, key, None, Added(s0, node, key, n0, None), d0[n0 := d0[node] + 1]);
      }
    }

    /** ptree_destroy: unlinks `n` from its parent and frees it together
        with every node below it. */
    method Destroy(n: NodeId)
      requires Valid() && n in store
      modifies this
      ensures Valid()
      ensures forall m :: m in store <==> m in old(store) && !Under(old(store), old(depth), n, m)
      ensures store == Pruned(old(store), old(depth), n)
    {
      PrunedLinked(store, depth, bound, next, n);
      store := Pruned(store, depth, n);
    }

    /** ptree_set: creates the node at the dotted `key` below `root`, with
        any missing intermediate nodes, and returns it; NULL if it already
        exists or an allocation fails. `budget` is the number of `malloc`
        calls that succeed, the first being the copy of the key. When the
        recursion fails after adding a child to `root`, that child is
        destroyed again, so `root` keeps the children it had. */
    method Set(root: NodeId, key: string, value: Option<V>, budget: nat) returns (r: Option<NodeId>)
      requires Valid() && root in store && Tokens(key, '.') != []
      modifies this
      ensures Valid()
      ensures Grown(old(store), store)
      ensures r.Some? ==> GetNode(store, root, key, true) == r && r.value !in old(store)
      ensures r.Some? ==> store[r.value].value == value && store[r.value].children == map[]
      ensures old(GetNode(store, root, key, true)).Some? ==> r.None? && store == old(store)
      ensures old(GetNode(store, root, key, true)).None? && budget > |Tokens(key, '.')| ==> r.Some?
      ensures r.None? ==> store[root].children == old(store[root].children)
    {
      GetNodeWalksSegments(store, root, key);
      if budget == 0 {
        return None;
      }
      var toks := Tokens(key, '.');
      assert toks == [toks[0]] + toks[1..];
      var childCount := |store[root].children|;
      ghost var s0, d0 := store, depth;
      r := SetRecurse(root, toks[0], toks[1..], value, budget - 1);
      GetNodeWalksSegments(store, root, key);
      ChildCountChanged(s0[root].children, store[root].children, toks[0]);
      if r.None? && |store[root].children| != childCount {
        if toks[0] in store[root].children {
          var first := store[root].children[toks[0]];
          SetRollback(s0, d0, store, depth, root, toks[0], first, Pruned(store, depth, first));
          Destroy(first);
        }
        r := None;
      }
    }
  
    /** ptree_set_parent: refuses, returning false with nothing changed,
        when `parent` is `node` itself or lies below it (which would make
        a cycle), or when inserting `node` into `parent`'s children under
        `key` fails; otherwise moves `node` there as Moved describes. A
        NULL `parent` detaches `node` into a root of its own. */
    method SetParent(node: NodeId, parent: Option<NodeId>, key: string, allocOk: bool, newFirst: bool)
      returns (ok: bool)
      requires Valid() && node in store && (parent.Some? ==> parent.value in store)
      modifies this
      ensures Valid()
      ensures ok <==> MoveAllowed(old(store), old(depth), node, parent, key) && (parent.Some? ==> allocOk)
      ensures !ok ==> store == old(store)
      ensures ok ==> store == Moved(old(store), node, parent, key, newFirst)
      ensures ok ==> store[node].parent == parent
    {
      if parent.Some? {
        var p := parent.value;
        NodeIsChildOfIsAbove(store, depth, bound, next, p, node);
        if node == p || NodeIsChildOf(store, depth, bound, next, p, node) {
          return false;
        }
        if !allocOk || key in store[p].children {
          return false;
        }
      }
      Reparent(node, parent, key, newFirst);
      ok := true;
    }
  
    /** The second half of ptree_set_parent, once its checks have passed:
        insert into the new parent, erase from the old one, set the parent
        link. */
    method Reparent(node: NodeId, parent: Option<NodeId>, key: string, newFirst: bool)
      requires Valid() && node in store && (parent.Some? ==> parent.value in store)
      requires MoveAllowed(store, depth, node, parent, key)
      modifies this
      ensures Valid()
      ensures store == Moved(old(store), node, parent, key, newFirst)
      ensures store[node].parent == parent
    {
      MovedLinked(store, depth, bound, next, node, parent, key, newFirst);
      MovedInSteps(store, node, parent, key, newFirst);
      var t := store;
      var q := t[node].parent;
      if parent.Some? {
        var p := parent.value;
        t := t[p := t[p].(children := t[p].children[key := node])];
      }
      if q.Some? {
        var n := q.value;
        t := t[n := t[n].(children := ErasedFromOld(t[n].children, node, key, parent == q, newFirst))];
      }
      t := t[node := t[node].(parent := parent)];
      depth, bound := MovedDepth(store, depth, node, parent), MovedBound(store, depth, bound, parent);
      store := t;
    }

    /** ptree_clean: cleans below each child of `n` in turn and then frees
        that child if it has become a leaf without a value, erasing it
        from the children of `n`. Returns the number of nodes freed. */
    method Clean(n: NodeId) returns (count: nat)
      requires Valid() && n in store
      modifies this
      ensures Valid() && depth == old(depth) && bound == old(bound) && next == old(next)
      ensures Cleaned(old(store), depth, store, n)
      ensures count == |old(store).Keys - store.Keys|
      decreases bound - depth[n], 1
    {
      ghost var s0 := store;
      var keys := store[n].children.Keys;
      ghost var done: set<NodeId> := {};
      count := 0;
      CleanInvStart(s0, depth, n);
      while keys != {}
        invariant Valid() && depth == old(depth) && bound == old(bound) && next == old(next)
        invariant keys <= s0[n].children.Keys
        invariant forall k | k in keys :: s0[n].children[k] !in done
        invariant forall k | k in s0[n].children && k !in keys :: s0[n].children[k] in done
        invariant CleanInv(s0, depth, store, n, done)
        invariant forall k | k in keys :: k in store[n].children && store[n].children[k] == s0[n].children[k]
        invariant count == |s0.Keys - store.Keys|
        decreases keys
      {
        var k :| k in keys;
        ghost var child := s0[n].children[k];
        PendingStep(s0[n].children, keys, done, k);
        var freed := CleanChild(n, k, s0, done);
        count := count + freed;
        keys := keys - {k};
        done := done + {child};
      }
      AllChildrenDone(s0, depth, bound, next, n, done);
      CleanInvEnd(s0, depth, store, n, done);
    }

    /** One round of the loop of ptree_clean: cleans below the child of `n`
        under `k`, then frees that child and erases `k` from the children
        of `n` if the child has become a leaf without a value. */
    method CleanChild(n: NodeId, k: string, ghost s0: Store<V>, ghost done: set<NodeId>) returns (freed: nat)
      requires Valid() && Linked(s0, depth, bound, next) && n in s0
      requires CleanInv(s0, depth, store, n, done)
      requires k in s0[n].children && k in store[n].children && store[n].children[k] == s0[n].children[k]
      requires s0[n].children[k] !in done
      modifies this
      ensures Valid() && depth == old(depth) && bound == old(bound) && next == old(next)
      ensures CleanInv(s0, depth, store, n, done + {s0[n].children[k]})
      ensures n in store
      ensures forall j | j in old(store[n].children) && j != k ::
                j in store[n].children && store[n].children[j] == old(store[n].children[j])
      ensures |s0.Keys - store.Keys| == |s0.Keys - old(store).Keys| + freed
      decreases bound - depth[n], 0
    {
      var child := store[n].children[k];
      ghost var st := store;
      assert s0[child].parent == Some(n);
      BranchOf(s0, depth, n, child, child);
      var c := Clean(child);
      ghost var s2 := store;
      CleanAfterChild(s0, depth, st, s2, n, child, done);
      KeysSplit(s0.Keys, st.Keys, s2.Keys);
      var gone := FreeIfEmpty(n, k, s0, done);
      freed := c + gone;
    }

    /** The test that ends a round of ptree_clean: the child of `n` under
        `k`, whose own subtree has been cleaned, is freed and its binding
        erased if it is a leaf without a value. */
    method FreeIfEmpty(n: NodeId, k: string, ghost s0: Store<V>, ghost done: set<NodeId>) returns (freed: nat)
      requires Valid() && Linked(s0, depth, bound, next) && n in s0 && k in s0[n].children
      requires DoneChildren(s0, n, done)
      requires Shrunk(s0, store) && n in store && k in store[n].children
      requires store[n].children[k] == s0[n].children[k]
      requires DroppedOnDone(s0, depth, store, n, done + {s0[n].children[k]})
      requires NoEmptyOnDone(s0, depth, store, n, done + {s0[n].children[k]}, {s0[n].children[k]})
      requires UntouchedOffDone(s0, depth, store, n, done + {s0[n].children[k]})
      modifies this
      ensures Valid() && depth == old(depth) && bound == old(bound) && next == old(next)
      ensures CleanInv(s0, depth, store, n, done + {s0[n].children[k]})
      ensures n in store
      ensures forall j | j in old(store[n].children) && j != k ::
                j in store[n].children && store[n].children[j] == old(store[n].children[j])
      ensures |s0.Keys - store.Keys| == |s0.Keys - old(store).Keys| + freed
    {
      var child := store[n].children[k];
      ghost var s2 := store;
      assert s0[child].parent == Some(n);
      if store[child].children == map[] && store[child].value.None? {
        CleanDrop(s0, depth, s2, n, k, child, done);
        DropLeaf(n, k);
        KeysDrop(s0.Keys, s2.Keys, child);
        freed := 1;
      } else {
        CleanKeep(s0, depth, s2, n, child, done);
        freed := 0;
      }
    }

    /** Frees the leaf child of `n` under `k` and erases `k` from the
        children of `n`. */
    method DropLeaf(n: NodeId, k: string)
      requires Valid() && n in store && k in store[n].children && store[store[n].children[k]].children == map[]
      modifies this
      ensures Valid() && depth == old(depth) && bound == old(bound) && next == old(next)
      ensures store == (old(store) - {old(store[n].children[k])})[n := old(store[n]).(children := old(store[n].children) - {k})]
      ensures n in store && store.Keys == old(store).Keys - {old(store[n].children[k])}
      ensures forall j | j in old(store[n].children) && j != k ::
                j in store[n].children && store[n].children[j] == old(store[n].children[j])
    {
      LeafDropLinked(store, depth, bound, next, n, k);
      store := (store - {store[n].children[k]})[n := store[n].(children := store[n].children - {k})];
    }
  }
}

/** The tree refines the dictionary on every set of keys that its comparator orders, and loses
    no key or value. */
module TreeMap {
  import opened Dictionary
  import opened TreeSpec

  // ----- Order -----

  /** The comparator is a total order, up to equal keys, on the keys of S. */
  ghost predicate Orders(cmp: (Ptr, Ptr) -> int, S: iset<Ptr>) {
    && (forall a, b {:trigger a in S, b in S} | a in S && b in S :: cmp(a, b) < 0 <==> cmp(b, a) > 0)
    && (forall a, b, c {:trigger a in S, b in S, c in S} | a in S && b in S && c in S ::
          cmp(a, b) <= 0 && cmp(b, c) <= 0 ==>
          cmp(a, c) <= 0 && (cmp(a, c) == 0 ==> cmp(a, b) == 0 && cmp(b, c) == 0))
  }

  /** The facts about three keys that the proofs use. */
  lemma Order3(cmp: (Ptr, Ptr) -> int, S: iset<Ptr>, a: Ptr, b: Ptr, c: Ptr)
    requires Orders(cmp, S) && a in S && b in S && c in S
    ensures cmp(a, a) == 0
    ensures cmp(a, b) < 0 <==> cmp(b, a) > 0
    ensures cmp(a, b) == 0 <==> cmp(b, a) == 0
    ensures cmp(a, b) == 0 ==> (cmp(a, c) < 0 <==> cmp(b, c) < 0) && (cmp(a, c) > 0 <==> cmp(b, c) > 0)
    ensures cmp(a, b) < 0 && cmp(b, c) < 0 ==> cmp(a, c) < 0
    ensures cmp(a, b) > 0 && cmp(b, c) > 0 ==> cmp(a, c) > 0
    ensures cmp(a, b) < 0 && cmp(b, c) == 0 ==> cmp(a, c) < 0
    ensures cmp(a, b) > 0 && cmp(b, c) == 0 ==> cmp(a, c) > 0
  {}

  function Keys(t: Tree): set<Ptr> {
    if t.Nil? then {} else Keys(t.left) + {t.key} + Keys(t.right)
  }

  /** The search order, strict everywhere: larger keys left, smaller keys right. */
  ghost predicate Ordered(cb: Callbacks, t: Tree) {
    t.Node? ==>
      && (forall k | k in Keys(t.left) :: cb.cmp(t.key, k) < 0)
      && (forall k | k in Keys(t.right) :: cb.cmp(t.key, k) > 0)
      && Ordered(cb, t.left)
      && Ordered(cb, t.right)
  }

  ghost predicate Sorted(cb: Callbacks, S: iset<Ptr>, t: Tree) {
    Ordered(cb, t) && forall k | k in Keys(t) :: k in S
  }

  // ----- Splicing one subtree below another -----

  /** Every key of `root` is larger than every key of `node`. */
  ghost predicate Above(cb: Callbacks, root: Tree, node: Tree) {
    forall x, y | x in Keys(root) && y in Keys(node) :: cb.cmp(x, y) > 0
  }

  /** Splicing smaller keys below keeps the search order and all keys, and throws nothing out:
      the equal-key branch of node_put is not reached. */
  lemma {:induction false} SpliceSmaller(cb: Callbacks, root: Tree, node: Tree)
    requires root.Node? && node.Node? && Ordered(cb, root) && Ordered(cb, node) && Above(cb, root, node)
    ensures var s := NodePut(cb, root, node);
      && s.out == Nil
      && Ordered(cb, s.tree)
      && Keys(s.tree) == Keys(root) + Keys(node)
    decreases root
  {
    assert root.key in Keys(root) && node.key in Keys(node);
    if root.right.Nil? {
    } else {
      SpliceSmaller(cb, root.right, node);
    }
  }

  /** Looking up in the spliced tree is looking up in one tree, then in the other. */
  lemma {:induction false} SpliceFind(cb: Callbacks, S: iset<Ptr>, root: Tree, node: Tree, q: Ptr)
    requires Orders(cb.cmp, S) && q in S
    requires root.Node? && node.Node? && Sorted(cb, S, root) && Sorted(cb, S, node) && Above(cb, root, node)
    ensures Find(cb, NodePut(cb, root, node).tree, q) ==
      if Find(cb, root, q).Some? then Find(cb, root, q) else Find(cb, node, q)
    decreases root
  {
    assert root.key in Keys(root) && node.key in Keys(node);
    if cb.cmp(root.key, q) > 0 {
      if root.right.Node? {
        SpliceFind(cb, S, root.right, node, q);
      }
    } else {
      forall y | y in Keys(node)
        ensures cb.cmp(y, q) != 0
      {
        Order3(cb.cmp, S, root.key, y, q);
        Order3(cb.cmp, S, y, root.key, q);
      }
      FindAbsent(cb, node, q);
    }
  }

  lemma {:induction false} FindAbsent(cb: Callbacks, t: Tree, q: Ptr)
    requires forall y | y in Keys(t) :: cb.cmp(y, q) != 0
    ensures Find(cb, t, q) == None
  {
    if t.Nil? {
    } else {
      assert t.key in Keys(t);
      FindAbsent(cb, t.left, q);
      FindAbsent(cb, t.right, q);
    }
  }

  // ----- put -----

  /** Putting one key keeps the order; an equal key is replaced by the new one. */
  lemma {:induction false} PutSorted(cb: Callbacks, S: iset<Ptr>, t: Tree, key: Ptr, val: Ptr)
    requires Orders(cb.cmp, S) && key in S && t.Node? && Sorted(cb, S, t)
    ensures var s := NodePut(cb, t, Leaf(key, val));
      && Sorted(cb, S, s.tree)
      && Keys(s.tree) <= Keys(t) + {key}
      && (s.out.Node? ==> s.out.left == Nil && s.out.right == Nil)
    decreases t
  {
    assert t.key in Keys(t);
    assert Keys(Leaf(key, val)) == {key};
    var c := cb.cmp(t.key, key);
    if c < 0 {
      if t.left.Node? {
        PutSorted(cb, S, t.left, key, val);
        assert forall k | k in Keys(NodePut(cb, t.left, Leaf(key, val)).tree) :: k in Keys(t.left) || k == key;
      }
    } else if c > 0 {
      if t.right.Node? {
        PutSorted(cb, S, t.right, key, val);
        assert forall k | k in Keys(NodePut(cb, t.right, Leaf(key, val)).tree) :: k in Keys(t.right) || k == key;
      }
    } else {
      Renamed(cb, S, t, key, val);
    }
  }

  /** An equal key can stand for the key of a node. */
  lemma Renamed(cb: Callbacks, S: iset<Ptr>, t: Tree, key: Ptr, val: Ptr)
    requires Orders(cb.cmp, S) && key in S && t.Node? && Sorted(cb, S, t) && cb.cmp(t.key, key) == 0
    ensures Sorted(cb, S, t.(key := key, val := val))
  {
    assert t.key in Keys(t);
    forall k | k in Keys(t)
      ensures cb.cmp(t.key, k) < 0 ==> cb.cmp(key, k) < 0
      ensures cb.cmp(t.key, k) > 0 ==> cb.cmp(key, k) > 0
    {
      Order3(cb.cmp, S, t.key, key, k);
    }
  }

  lemma {:induction false} PutFind(cb: Callbacks, S: iset<Ptr>, t: Tree, key: Ptr, val: Ptr, q: Ptr)
    requires Orders(cb.cmp, S) && key in S && q in S && t.Node? && Sorted(cb, S, t)
    ensures Find(cb, NodePut(cb, t, Leaf(key, val)).tree, q) ==
      if cb.cmp(key, q) == 0 then Some(val) else Find(cb, t, q)
    decreases t
  {
    assert t.key in Keys(t);
    Order3(cb.cmp, S, t.key, key, q);
    Order3(cb.cmp, S, key, q, t.key);
    var c := cb.cmp(t.key, key);
    if c < 0 && t.left.Node? {
      PutFind(cb, S, t.left, key, val, q);
    } else if c > 0 && t.right.Node? {
      PutFind(cb, S, t.right, key, val, q);
    }
  }

  // ----- remove -----

  /** The two subtrees of a node stand above each other. */
  lemma SubtreesAbove(cb: Callbacks, S: iset<Ptr>, t: Tree)
    requires Orders(cb.cmp, S) && t.Node? && Sorted(cb, S, t)
    ensures Above(cb, t.left, t.right)
  {
    assert t.key in Keys(t);
    forall x, y | x in Keys(t.left) && y in Keys(t.right)
      ensures cb.cmp(x, y) > 0
    {
      Order3(cb.cmp, S, t.key, x, y);
      Order3(cb.cmp, S, x, t.key, y);
    }
  }

  lemma JoinedSorted(cb: Callbacks, S: iset<Ptr>, t: Tree)
    requires Orders(cb.cmp, S) && t.Node? && Sorted(cb, S, t)
    ensures var s := Joined(cb, t.left, t.right);
      && s.out == Nil
      && Ordered(cb, s.tree)
      && Keys(s.tree) == Keys(t.left) + Keys(t.right)
      && t.key !in Keys(s.tree)
  {
    SubtreesAbove(cb, S, t);
    if t.left.Node? && t.right.Node? {
      SpliceSmaller(cb, t.left, t.right);
    }
    assert t.key in Keys(t);
    Order3(cb.cmp, S, t.key, t.key, t.key);
  }

  /** A key on one side of a node equals neither the node's nor any on the other side. */
  lemma Sides(cb: Callbacks, S: iset<Ptr>, t: Tree, key: Ptr)
    requires Orders(cb.cmp, S) && key in S && t.Node? && Sorted(cb, S, t)
    ensures cb.cmp(t.key, key) < 0 ==> forall k | k in Keys(t.right) :: cb.cmp(k, key) != 0
    ensures cb.cmp(t.key, key) > 0 ==> forall k | k in Keys(t.left) :: cb.cmp(k, key) != 0
    ensures t.key !in Keys(t.left) && t.key !in Keys(t.right)
    ensures Keys(t.left) !! Keys(t.right)
  {
    assert t.key in Keys(t);
    Order3(cb.cmp, S, t.key, t.key, t.key);
    forall k | k in Keys(t)
      ensures cb.cmp(t.key, key) < 0 && cb.cmp(t.key, k) > 0 ==> cb.cmp(k, key) != 0
      ensures cb.cmp(t.key, key) > 0 && cb.cmp(t.key, k) < 0 ==> cb.cmp(k, key) != 0
    {
      Order3(cb.cmp, S, t.key, k, key);
      Order3(cb.cmp, S, k, key, t.key);
    }
    forall k | k in Keys(t.left)
      ensures k !in Keys(t.right)
    {
      assert cb.cmp(t.key, k) < 0;
    }
  }

  /** Removing a node, however many children it has, keeps the strict search order and never
      throws a subtree out. */
  lemma {:induction false} RemoveSorted(cb: Callbacks, S: iset<Ptr>, t: Tree, key: Ptr)
    requires Orders(cb.cmp, S) && key in S && Sorted(cb, S, t)
    ensures var r := NodeRemove(cb, t, key);
      r.out == Nil && Sorted(cb, S, r.tree) && Keys(r.tree) <= Keys(t)
    decreases t
  {
    if t.Nil? {
    } else {
      assert t.key in Keys(t);
      if cb.cmp(t.key, key) < 0 {
        RemoveSorted(cb, S, t.left, key);
      } else if cb.cmp(t.key, key) > 0 {
        RemoveSorted(cb, S, t.right, key);
      } else {
        JoinedSorted(cb, S, t);
      }
    }
  }

  /** It deletes exactly the key that compares equal, or nothing when there is none. */
  lemma {:induction false} RemoveDeletesOne(cb: Callbacks, S: iset<Ptr>, t: Tree, key: Ptr)
    requires Orders(cb.cmp, S) && key in S && Sorted(cb, S, t)
    ensures var r := NodeRemove(cb, t, key);
      && (r.removed.Nil? ==> r.tree == t && forall k | k in Keys(t) :: cb.cmp(k, key) != 0)
      && (r.removed.Node? ==>
            r.removed.key in Keys(t) && cb.cmp(r.removed.key, key) == 0 && Keys(r.tree) == Keys(t) - {r.removed.key})
    decreases t
  {
    if t.Nil? {
    } else {
      assert t.key in Keys(t);
      Sides(cb, S, t, key);
      var c := cb.cmp(t.key, key);
      if c < 0 {
        RemoveDeletesOne(cb, S, t.left, key);
      } else if c > 0 {
        RemoveDeletesOne(cb, S, t.right, key);
      } else {
        JoinedSorted(cb, S, t);
      }
    }
  }

  lemma {:induction false} RemoveFind(cb: Callbacks, S: iset<Ptr>, t: Tree, key: Ptr, q: Ptr)
    requires Orders(cb.cmp, S) && key in S && q in S && Sorted(cb, S, t)
    ensures var r := NodeRemove(cb, t, key);
      && (r.removed.Node? <==> Find(cb, t, key).Some?)
      && (r.removed.Node? ==> r.removed.val == Find(cb, t, key).value)
      && Find(cb, r.tree, q) == if cb.cmp(key, q) == 0 then None else Find(cb, t, q)
    decreases t
  {
    if t.Nil? {
    } else {
      assert t.key in Keys(t);
      Order3(cb.cmp, S, t.key, key, q);
      Order3(cb.cmp, S, key, q, t.key);
      var c := cb.cmp(t.key, key);
      if c < 0 {
        RemoveFind(cb, S, t.left, key, q);
      } else if c > 0 {
        RemoveFind(cb, S, t.right, key, q);
      } else {
        JoinedFind(cb, S, t, q);
      }
    }
  }

  lemma JoinedFind(cb: Callbacks, S: iset<Ptr>, t: Tree, q: Ptr)
    requires Orders(cb.cmp, S) && q in S && t.Node? && Sorted(cb, S, t)
    ensures Find(cb, Joined(cb, t.left, t.right).tree, q) == if cb.cmp(t.key, q) == 0 then None else Find(cb, t, q)
  {
    assert t.key in Keys(t);
    forall y | y in Keys(t)
      ensures cb.cmp(t.key, q) <= 0 && cb.cmp(t.key, y) > 0 ==> cb.cmp(y, q) != 0
      ensures cb.cmp(t.key, q) >= 0 && cb.cmp(t.key, y) < 0 ==> cb.cmp(y, q) != 0
    {
      Order3(cb.cmp, S, t.key, y, q);
      Order3(cb.cmp, S, y, q, t.key);
    }
    if cb.cmp(t.key, q) <= 0 {
      FindAbsent(cb, t.right, q);
    }
    if cb.cmp(t.key, q) >= 0 {
      FindAbsent(cb, t.left, q);
    }
    if t.left.Node? && t.right.Node? {
      SubtreesAbove(cb, S, t);
      SpliceFind(cb, S, t.left, t.right, q);
    }
  }
}

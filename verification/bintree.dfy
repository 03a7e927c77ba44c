/** The tree of a/bintree.c in its own form: nodes with child pointers that put and remove
    rewrite in place.  Every method is proved to do to the tree's value what the function of
    the same name in TreeSpec does. */
module BinTree {
  import opened Dictionary
  import TreeSpec
  import TreeRuns

  type Value = TreeSpec.Tree

  class Node {
    var left: Node?
    var right: Node?
    var key: Ptr
    var val: Ptr

    constructor (key: Ptr, val: Ptr)
      ensures this.key == key && this.val == val && this.left == null && this.right == null
    {
      this.key, this.val, this.left, this.right := key, val, null, null;
    }
  }

  /** Which node stands where. */
  datatype Shape = Hole | Fork(left: Shape, node: Node, right: Shape)

  ghost function Nodes(g: Shape): set<Node> {
    if g.Hole? then {} else Nodes(g.left) + {g.node} + Nodes(g.right)
  }

  /** The nodes below `root` are linked as the shape says, each standing in one place. */
  ghost predicate Linked(g: Shape, root: Node?)
    reads Nodes(g)
  {
    if g.Hole? then root == null
    else
      && root == g.node
      && g.node !in Nodes(g.left) && g.node !in Nodes(g.right)
      && Nodes(g.left) !! Nodes(g.right)
      && Linked(g.left, g.node.left)
      && Linked(g.right, g.node.right)
  }

  ghost function ValueOf(g: Shape): Value
    reads Nodes(g)
  {
    if g.Hole? then TreeSpec.Nil
    else TreeSpec.Node(ValueOf(g.left), g.node.key, g.node.val, ValueOf(g.right))
  }

  /** The nodes a shape names exist, so what is said of them survives changes elsewhere. */
  lemma {:induction false} Exist(g: Shape)
    ensures forall x | x in Nodes(g) :: allocated(x)
    decreases g
  {
    if g.Hole? {
    } else {
      Exist(g.left);
      Exist(g.right);
    }
  }

  /** The same for the parts of a shape, one by one. */
  lemma PartsExist(g: Shape)
    ensures forall x | x in Nodes(g) :: allocated(x)
    ensures g.Fork? ==> forall x | x in Nodes(g.left) :: allocated(x)
    ensures g.Fork? ==> forall x | x in Nodes(g.right) :: allocated(x)
  {
    Exist(g);
    if g.Fork? {
      Exist(g.left);
      Exist(g.right);
    }
  }

  class Tree {
    const cb: TreeSpec.Callbacks
    var root: Node?
    // the calls made to the free callbacks
    var keysFreed: seq<Ptr>
    var valsFreed: seq<Ptr>

    ghost var shape: Shape

    ghost predicate Valid()
      reads this, Nodes(shape)
    {
      Linked(shape, root)
    }

    ghost function View(): TreeSpec.State
      reads this, Nodes(shape)
    {
      TreeSpec.State(ValueOf(shape), keysFreed, valsFreed)
    }

    /** The callback records, as a state whose tree does not matter. */
    ghost function Records(): TreeSpec.State
      reads this`keysFreed, this`valsFreed
    {
      TreeSpec.State(TreeSpec.Nil, keysFreed, valsFreed)
    }

    /** a_bintree_init */
    constructor (cb: TreeSpec.Callbacks)
      ensures Valid() && this.cb == cb && View() == TreeSpec.EMPTY && shape == Hole
    {
      this.cb := cb;
      root := null;
      keysFreed, valsFreed := [], [];
      shape := Hole;
    }

    /** node_free */
    method NodeFree(node: Node)
      modifies this`keysFreed, this`valsFreed
      ensures Records() == TreeSpec.NodeFree(cb, old(Records()), node.key, node.val)
    {
      if cb.keyFree {
        keysFreed := keysFreed + [node.key];
      }
      if cb.valFree {
        valsFreed := valsFreed + [node.val];
      }
    }

    /** node_put */
    method NodePut(root: Node, node: Node, ghost g: Shape, ghost n: Shape) returns (ghost g': Shape)
      requires Linked(g, root) && Linked(n, node) && Nodes(g) !! Nodes(n)
      modifies this`keysFreed, this`valsFreed, Nodes(g), node
      ensures Linked(g', root) && g'.Fork?
      ensures Nodes(g') <= Nodes(g) + Nodes(n)
      ensures var s := TreeSpec.NodePut(cb, old(ValueOf(g)), old(ValueOf(n)));
        && ValueOf(g') == s.tree
        && Records() == TreeSpec.FreeOut(cb, old(Records()), s.out)
      decreases g
    {
      PartsExist(g);
      PartsExist(n);
      ghost var v := ValueOf(g);
      var cmp := cb.cmp(root.key, node.key);
      if cmp < 0 {
        ghost var l := n;
        if root.left != null {
          l := NodePut(root.left, node, g.left, n);
        } else {
          root.left := node;
        }
        g' := Fork(l, root, g.right);
        assert ValueOf(g') == v.(left := ValueOf(l));
      } else if cmp > 0 {
        ghost var r := n;
        if root.right != null {
          r := NodePut(root.right, node, g.right, n);
        } else {
          root.right := node;
        }
        g' := Fork(g.left, root, r);
        assert ValueOf(g') == v.(right := ValueOf(r));
      } else {
        ReplaceRoot(root, node, g, n);
        g' := g;
      }
    }

    /** The equal-key branch of node_put: the node that came in is freed with the old key and
        value. */
    method ReplaceRoot(root: Node, node: Node, ghost g: Shape, ghost n: Shape)
      requires Linked(g, root) && g.Fork? && Linked(n, node) && Nodes(g) !! Nodes(n)
      modifies this`keysFreed, this`valsFreed, root`key, root`val, node`key, node`val
      ensures Linked(g, root)
      ensures ValueOf(g) == TreeSpec.Node(old(ValueOf(g.left)), old(node.key), old(node.val), old(ValueOf(g.right)))
      ensures Records() == TreeSpec.NodeFree(cb, old(Records()), old(root.key), old(root.val))
    {
      PartsExist(g);
      Exchange(root, node);
      NodeFree(node);
    }

    /** The nodes swap keys and values. */
    method Exchange(root: Node, node: Node)
      requires root != node
      modifies root`key, root`val, node`key, node`val
      ensures root.key == old(node.key) && root.val == old(node.val)
      ensures node.key == old(root.key) && node.val == old(root.val)
    {
      var tmp := root.key;
      root.key := node.key;
      node.key := tmp;
      tmp := root.val;
      root.val := node.val;
      node.val := tmp;
    }

    /** a_bintree_put */
    method Put(key: Ptr, val: Ptr, allocOk: bool) returns (ok: bool)
      requires Valid()
      modifies this, Nodes(shape)
      ensures Valid() && fresh(Nodes(shape) - old(Nodes(shape)))
      ensures View() == TreeSpec.Put(cb, old(View()), key, val, allocOk).0
      ensures ok == TreeSpec.Put(cb, old(View()), key, val, allocOk).1
    {
      if !allocOk {
        return false;
      }
      PartsExist(shape);
      var node := new Node(key, val);
      ghost var leaf := Fork(Hole, node, Hole);
      if root != null {
        shape := NodePut(root, node, shape, leaf);
      } else {
        root := node;
        shape := leaf;
      }
      return true;
    }

    /** node_get */
    method NodeGet(root: Node?, key: Ptr, ghost g: Shape) returns (val: Ptr)
      requires Linked(g, root)
      ensures val == OrNull(TreeSpec.Find(cb, ValueOf(g), key))
      decreases g
    {
      if root == null {
        return NULL;
      }
      var cmp := cb.cmp(root.key, key);
      if cmp < 0 {
        val := NodeGet(root.left, key, g.left);
      } else if cmp > 0 {
        val := NodeGet(root.right, key, g.right);
      } else {
        val := root.val;
      }
    }

    /** a_bintree_get */
    method Get(key: Ptr) returns (val: Ptr)
      requires Valid()
      ensures val == TreeSpec.Get(cb, View(), key)
    {
      val := NodeGet(root, key, shape);
    }

    /** node_remove; `link` is what the caller stores through the source's `root_ptr`. */
    method NodeRemove(root: Node?, key: Ptr, ghost g: Shape) returns (link: Node?, val: Ptr, ghost g': Shape)
      requires Linked(g, root)
      modifies this`keysFreed, this`valsFreed, Nodes(g)
      ensures Linked(g', link) && Nodes(g') <= Nodes(g)
      ensures var r := TreeSpec.NodeRemove(cb, old(ValueOf(g)), key);
        && ValueOf(g') == r.tree
        && val == (if r.removed.Nil? then NULL else r.removed.val)
        && Records() == if r.removed.Nil? then old(Records())
                        else TreeSpec.NodeFree(cb, TreeSpec.FreeOut(cb, old(Records()), r.out), r.removed.key, NULL)
      decreases g
    {
      PartsExist(g);
      if root == null {
        return null, NULL, g;
      }
      ghost var v := ValueOf(g);
      var cmp := cb.cmp(root.key, key);
      if cmp < 0 {
        ghost var l;
        var child;
        child, val, l := NodeRemove(root.left, key, g.left);
        root.left := child;
        g' := Fork(l, root, g.right);
        assert ValueOf(g') == v.(left := ValueOf(l));
        return root, val, g';
      } else if cmp > 0 {
        ghost var r;
        var child;
        child, val, r := NodeRemove(root.right, key, g.right);
        root.right := child;
        g' := Fork(g.left, root, r);
        assert ValueOf(g') == v.(right := ValueOf(r));
        return root, val, g';
      }
      link, val, g' := Detach(root, g);
    }

    /** The end of node_remove, at the node with the key. */
    method Detach(root: Node, ghost g: Shape) returns (link: Node?, val: Ptr, ghost g': Shape)
      requires Linked(g, root)
      modifies this`keysFreed, this`valsFreed, Nodes(g)
      ensures Linked(g', link) && Nodes(g') <= Nodes(g)
      ensures val == old(root.val)
      ensures var s := TreeSpec.Joined(cb, old(ValueOf(g.left)), old(ValueOf(g.right)));
        && ValueOf(g') == s.tree
        && Records() == TreeSpec.NodeFree(cb, TreeSpec.FreeOut(cb, old(Records()), s.out), old(root.key), NULL)
    {
      PartsExist(g);
      val := root.val;
      root.val := NULL;
      if root.left != null {
        g' := g.left;
        if root.right != null {
          g' := NodePut(root.left, root.right, g.left, g.right);
        }
        link := root.left;
      } else {
        link := root.right;
        g' := g.right;
      }
      root.left, root.right := null, null;
      NodeFree(root);
    }

    /** a_bintree_remove */
    method Remove(key: Ptr) returns (val: Ptr)
      requires Valid()
      modifies this, Nodes(shape)
      ensures Valid() && Nodes(shape) <= old(Nodes(shape))
      ensures View() == TreeSpec.Remove(cb, old(View()), key).0
      ensures val == TreeSpec.Remove(cb, old(View()), key).1
    {
      var link;
      ghost var g;
      link, val, g := NodeRemove(root, key, shape);
      ghost var r := TreeSpec.NodeRemove(cb, old(View()).tree, key);
      if r.removed.Nil? {
        TreeRuns.RemovedIsLeaf(cb, old(View()).tree, key);
      }
      root := link;
      shape := g;
    }

    /** a_bintree_delete */
    method Delete(key: Ptr)
      requires Valid()
      modifies this, Nodes(shape)
      ensures Valid() && Nodes(shape) <= old(Nodes(shape))
      ensures View() == TreeSpec.Delete(cb, old(View()), key)
    {
      var val := Remove(key);
      if val != NULL && cb.valFree {
        valsFreed := valsFreed + [val];
      }
    }

    /** node_axe */
    method NodeAxe(root: Node?, ghost g: Shape)
      requires Linked(g, root)
      modifies this`keysFreed, this`valsFreed
      ensures Records() == TreeSpec.NodeAxe(cb, old(Records()), ValueOf(g))
      decreases g
    {
      PartsExist(g);
      if root != null {
        NodeAxe(root.right, g.right);
        NodeAxe(root.left, g.left);
        NodeFree(root);
      }
    }

    /** a_bintree_axe */
    method Axe()
      requires Valid()
      modifies this
      ensures Valid() && shape == Hole
      ensures View() == TreeSpec.Axe(cb, old(View()))
    {
      PartsExist(shape);
      AxeRecords(View(), View().tree);
      NodeAxe(root, shape);
      root := null;
      shape := Hole;
    }

    /** What node_axe records does not depend on the tree field of the state. */
    lemma {:induction false} AxeRecords(st: TreeSpec.State, t: Value)
      ensures TreeSpec.NodeAxe(cb, st, t) == TreeSpec.NodeAxe(cb, st.(tree := TreeSpec.Nil), t).(tree := st.tree)
      decreases t
    {
      if t.Nil? {
      } else {
        AxeRecords(st, t.right);
        AxeRecords(TreeSpec.NodeAxe(cb, st, t.right), t.left);
      }
    }
  }
}

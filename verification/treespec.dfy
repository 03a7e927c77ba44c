/** The binary tree of a/bintree.c on values.  Larger keys are on the left: the comparator is
    called with the node's key first, and a negative answer leads left. */
module TreeSpec {
  import opened Dictionary

  /** The function pointers of the tree; `false` stands for a NULL free callback. */
  datatype Callbacks = Callbacks(cmp: (Ptr, Ptr) -> int, keyFree: bool, valFree: bool)

  datatype Tree = Nil | Node(left: Tree, key: Ptr, val: Ptr, right: Tree)

  datatype State = State(tree: Tree, keysFreed: seq<Ptr>, valsFreed: seq<Ptr>)

  const EMPTY := State(Nil, [], [])

  // ----- Operations -----

  function Leaf(key: Ptr, val: Ptr): Tree {
    Node(Nil, key, val, Nil)
  }

  /** What node_put leaves: the tree, and on equal keys the node that was thrown out, with the
      old key and value and with the children of the node that came in. */
  datatype Splice = Splice(tree: Tree, out: Tree)

  /** node_put: hangs `node`, a subtree as it is, below `root`. */
  function NodePut(cb: Callbacks, root: Tree, node: Tree): (r: Splice)
    requires root.Node? && node.Node?
    ensures r.tree.Node?
  {
    var c := cb.cmp(root.key, node.key);
    if c < 0 then
      if root.left.Node? then
        var s := NodePut(cb, root.left, node);
        Splice(root.(left := s.tree), s.out)
      else Splice(root.(left := node), Nil)
    else if c > 0 then
      if root.right.Node? then
        var s := NodePut(cb, root.right, node);
        Splice(root.(right := s.tree), s.out)
      else Splice(root.(right := node), Nil)
    else
      Splice(root.(key := node.key, val := node.val), node.(key := root.key, val := root.val))
  }

  /** node_free */
  function NodeFree(cb: Callbacks, st: State, key: Ptr, val: Ptr): State {
    st.(keysFreed := st.keysFreed + (if cb.keyFree then [key] else []),
        valsFreed := st.valsFreed + (if cb.valFree then [val] else []))
  }

  /** The node thrown out is freed; its children are not. */
  function FreeOut(cb: Callbacks, st: State, out: Tree): State {
    if out.Node? then NodeFree(cb, st, out.key, out.val) else st
  }

  /** a_bintree_put; the flag says whether the allocation would succeed. */
  function Put(cb: Callbacks, st: State, key: Ptr, val: Ptr, allocOk: bool): (State, bool) {
    if !allocOk then (st, false)
    else if st.tree.Nil? then (st.(tree := Leaf(key, val)), true)
    else
      var s := NodePut(cb, st.tree, Leaf(key, val));
      (FreeOut(cb, st.(tree := s.tree), s.out), true)
  }

  function Find(cb: Callbacks, t: Tree, key: Ptr): Option<Ptr> {
    if t.Nil? then None
    else
      var c := cb.cmp(t.key, key);
      if c < 0 then Find(cb, t.left, key) else if c > 0 then Find(cb, t.right, key) else Some(t.val)
  }

  /** a_bintree_get */
  function Get(cb: Callbacks, st: State, key: Ptr): Ptr {
    OrNull(Find(cb, st.tree, key))
  }

  /** The tree that takes the place of a removed node. */
  function Joined(cb: Callbacks, left: Tree, right: Tree): Splice {
    if left.Nil? then Splice(right, Nil)
    else if right.Nil? then Splice(left, Nil)
    else NodePut(cb, left, right)
  }

  /** What node_remove does: the tree, the node removed without its children, and what the
      splice threw out. */
  datatype Removal = Removal(tree: Tree, removed: Tree, out: Tree)

  function NodeRemove(cb: Callbacks, t: Tree, key: Ptr): Removal {
    if t.Nil? then Removal(Nil, Nil, Nil)
    else
      var c := cb.cmp(t.key, key);
      if c < 0 then
        var r := NodeRemove(cb, t.left, key);
        r.(tree := t.(left := r.tree))
      else if c > 0 then
        var r := NodeRemove(cb, t.right, key);
        r.(tree := t.(right := r.tree))
      else
        var s := Joined(cb, t.left, t.right);
        Removal(s.tree, Leaf(t.key, t.val), s.out)
  }

  /** a_bintree_remove: the value goes to the caller, and the value callback gets a NULL. */
  function Remove(cb: Callbacks, st: State, key: Ptr): (State, Ptr) {
    var r := NodeRemove(cb, st.tree, key);
    if r.removed.Nil? then (st, NULL)
    else
      (NodeFree(cb, FreeOut(cb, st.(tree := r.tree), r.out), r.removed.key, NULL), r.removed.val)
  }

  /** a_bintree_delete */
  function Delete(cb: Callbacks, st: State, key: Ptr): State {
    var (st', val) := Remove(cb, st, key);
    if val != NULL && cb.valFree then st'.(valsFreed := st'.valsFreed + [val]) else st'
  }

  /** node_axe: right subtree, left subtree, root. */
  function NodeAxe(cb: Callbacks, st: State, t: Tree): (r: State)
    ensures r.tree == st.tree
    decreases t
  {
    if t.Nil? then st else NodeFree(cb, NodeAxe(cb, NodeAxe(cb, st, t.right), t.left), t.key, t.val)
  }

  /** a_bintree_axe */
  function Axe(cb: Callbacks, st: State): State {
    NodeAxe(cb, st, st.tree).(tree := Nil)
  }

  // ----- Runs -----

  datatype Op =
    | OpPut(key: Ptr, val: Ptr, allocOk: bool)
    | OpGet(key: Ptr)
    | OpRemove(key: Ptr)
    | OpDelete(key: Ptr)
    | OpAxe

  datatype Run = Run(
    st: State, events: seq<Event>, answers: seq<Ptr>,
    keysIn: multiset<Ptr>, valsIn: multiset<Ptr>, valsOut: multiset<Ptr>)

  const START := Run(EMPTY, [], [], multiset{}, multiset{}, multiset{})

  function Step(cb: Callbacks, r: Run, op: Op): Run {
    match op
    case OpPut(k, v, allocOk) =>
      var (st, ok) := Put(cb, r.st, k, v, allocOk);
      if ok then
        r.(st := st, events := r.events + [Stored(k, v)],
           keysIn := r.keysIn + multiset{k}, valsIn := r.valsIn + multiset{v})
      else r.(st := st)
    case OpGet(k) => r.(answers := r.answers + [Get(cb, r.st, k)])
    case OpRemove(k) =>
      var (st, v) := Remove(cb, r.st, k);
      r.(st := st, events := r.events + [Removed(k)], answers := r.answers + [v],
         valsOut := r.valsOut + multiset{v})
    case OpDelete(k) =>
      r.(st := Delete(cb, r.st, k), events := r.events + [Removed(k)])
    case OpAxe =>
      r.(st := Axe(cb, r.st), events := r.events + [Cleared])
  }

  function Exec(cb: Callbacks, script: seq<Op>): Run {
    if script == [] then START
    else Step(cb, Exec(cb, script[..|script| - 1]), script[|script| - 1])
  }
}

/** Runs of the tree: order, agreement with the dictionary, conservation of keys and values. */
module TreeRuns {
  import opened Dictionary
  import opened TreeSpec
  import opened TreeMap

  // ----- The dictionary -----

  /** Equal keys, as the tree sees them. */
  function Same(cb: Callbacks): (Ptr, Ptr) -> bool {
    (a: Ptr, b: Ptr) => cb.cmp(a, b) == 0
  }

  ghost predicate KeysWithin(script: seq<Op>, S: iset<Ptr>) {
    forall op | op in script && !op.OpAxe? :: op.key in S
  }

  ghost predicate Refines(cb: Callbacks, S: iset<Ptr>, r: Run) {
    && Sorted(cb, S, r.st.tree)
    && (forall q | q in S :: Find(cb, r.st.tree, q) == Latest(Same(cb), r.events, q))
  }

  lemma PutRefines(cb: Callbacks, S: iset<Ptr>, st: State, key: Ptr, val: Ptr)
    requires Orders(cb.cmp, S) && key in S && Sorted(cb, S, st.tree)
    ensures var r := Put(cb, st, key, val, true).0;
      && Sorted(cb, S, r.tree)
      && forall q | q in S :: Find(cb, r.tree, q) == if cb.cmp(key, q) == 0 then Some(val) else Find(cb, st.tree, q)
  {
    if st.tree.Node? {
      PutSorted(cb, S, st.tree, key, val);
      forall q | q in S {
        PutFind(cb, S, st.tree, key, val, q);
      }
    } else {
      assert Keys(Leaf(key, val)) == {key};
    }
  }

  lemma RemoveRefines(cb: Callbacks, S: iset<Ptr>, st: State, key: Ptr)
    requires Orders(cb.cmp, S) && key in S && Sorted(cb, S, st.tree)
    ensures var (r, v) := Remove(cb, st, key);
      && Sorted(cb, S, r.tree)
      && v == OrNull(Find(cb, st.tree, key))
      && forall q | q in S :: Find(cb, r.tree, q) == if cb.cmp(key, q) == 0 then None else Find(cb, st.tree, q)
  {
    RemoveSorted(cb, S, st.tree, key);
    RemoveDeletesOne(cb, S, st.tree, key);
    forall q | q in S {
      RemoveFind(cb, S, st.tree, key, q);
    }
    RemoveFind(cb, S, st.tree, key, key);
  }

  lemma StepRefines(cb: Callbacks, S: iset<Ptr>, r: Run, op: Op)
    requires Orders(cb.cmp, S) && Refines(cb, S, r) && (op.OpAxe? || op.key in S)
    ensures Refines(cb, S, Step(cb, r, op))
  {
    forall e, q {
      LatestAppend(Same(cb), r.events, e, q);
    }
    match op
    case OpPut(k, v, ok) => PutRefines(cb, S, r.st, k, v);
    case OpGet(_) =>
    case OpRemove(k) => RemoveRefines(cb, S, r.st, k);
    case OpDelete(k) => RemoveRefines(cb, S, r.st, k);
    case OpAxe =>
  }

  /** Over every run whose keys the comparator orders, the tree keeps the search order and
      answers as the dictionary does. */
  lemma {:induction false} TreeRefinesDictionary(cb: Callbacks, S: iset<Ptr>, script: seq<Op>)
    requires Orders(cb.cmp, S) && KeysWithin(script, S)
    ensures Refines(cb, S, Exec(cb, script))
  {
    if script == [] {
    } else {
      var before := script[..|script| - 1];
      assert script[|script| - 1] in script;
      assert forall op | op in before :: op in script;
      TreeRefinesDictionary(cb, S, before);
      StepRefines(cb, S, Exec(cb, before), script[|script| - 1]);
    }
  }

  /** The values returned: get and remove answer with the last value put for an equal key. */
  lemma AnswersAreLatest(cb: Callbacks, S: iset<Ptr>, script: seq<Op>, key: Ptr)
    requires Orders(cb.cmp, S) && KeysWithin(script, S) && key in S
    ensures var r := Exec(cb, script);
      var last := OrNull(Latest(Same(cb), r.events, key));
      Get(cb, r.st, key) == last && Remove(cb, r.st, key).1 == last
  {
    TreeRefinesDictionary(cb, S, script);
    RemoveRefines(cb, S, Exec(cb, script).st, key);
  }

  // ----- Ownership -----

  function KeyCount(t: Tree, p: Ptr): nat {
    if t.Nil? then 0 else KeyCount(t.left, p) + One(t.key, p) + KeyCount(t.right, p)
  }

  function ValCount(t: Tree, p: Ptr): nat {
    if t.Nil? then 0 else ValCount(t.left, p) + One(t.val, p) + ValCount(t.right, p)
  }

  /** How often `p` is stored as a key, or has been passed to the key callback. */
  function KeysHeld(st: State, p: Ptr): nat { KeyCount(st.tree, p) + Times(st.keysFreed, p) }
  function ValsHeld(st: State, p: Ptr): nat { ValCount(st.tree, p) + Times(st.valsFreed, p) }

  /** Whatever goes into a splice is in the tree or in the node thrown out. */
  lemma {:induction false} SpliceCounts(cb: Callbacks, root: Tree, node: Tree, p: Ptr)
    requires root.Node? && node.Node?
    ensures var s := NodePut(cb, root, node);
      && KeyCount(s.tree, p) + KeyCount(s.out, p) == KeyCount(root, p) + KeyCount(node, p)
      && ValCount(s.tree, p) + ValCount(s.out, p) == ValCount(root, p) + ValCount(node, p)
    decreases root
  {
    if cb.cmp(root.key, node.key) < 0 && root.left.Node? {
      SpliceCounts(cb, root.left, node, p);
    } else if cb.cmp(root.key, node.key) > 0 && root.right.Node? {
      SpliceCounts(cb, root.right, node, p);
    }
  }

  lemma {:induction false} RemoveCounts(cb: Callbacks, t: Tree, key: Ptr, p: Ptr)
    ensures var r := NodeRemove(cb, t, key);
      && KeyCount(r.tree, p) + KeyCount(r.removed, p) + KeyCount(r.out, p) == KeyCount(t, p)
      && ValCount(r.tree, p) + ValCount(r.removed, p) + ValCount(r.out, p) == ValCount(t, p)
    decreases t
  {
    if t.Nil? {
    } else {
      if cb.cmp(t.key, key) < 0 {
        RemoveCounts(cb, t.left, key, p);
      } else if cb.cmp(t.key, key) > 0 {
        RemoveCounts(cb, t.right, key, p);
      } else if t.left.Node? && t.right.Node? {
        SpliceCounts(cb, t.left, t.right, p);
      }
    }
  }

  lemma NodeFreeHeld(cb: Callbacks, st: State, key: Ptr, val: Ptr, p: Ptr)
    ensures var r := NodeFree(cb, st, key, val);
      && r.tree == st.tree
      && Times(r.keysFreed, p) == Times(st.keysFreed, p) + (if cb.keyFree then One(key, p) else 0)
      && Times(r.valsFreed, p) == Times(st.valsFreed, p) + (if cb.valFree then One(val, p) else 0)
  {}

  /** A node thrown out is freed, but what hangs below it is dropped. */
  predicate Childless(out: Tree) {
    out.Node? ==> out.left.Nil? && out.right.Nil?
  }

  function KeysBelow(out: Tree, p: Ptr): nat {
    if out.Nil? then 0 else KeyCount(out.left, p) + KeyCount(out.right, p)
  }

  function ValsBelow(out: Tree, p: Ptr): nat {
    if out.Nil? then 0 else ValCount(out.left, p) + ValCount(out.right, p)
  }

  /** A put throws out nothing or a leaf, whatever the comparator says. */
  lemma {:induction false} PutThrowsLeaf(cb: Callbacks, root: Tree, key: Ptr, val: Ptr)
    requires root.Node?
    ensures Childless(NodePut(cb, root, Leaf(key, val)).out)
    decreases root
  {
    if cb.cmp(root.key, key) < 0 && root.left.Node? {
      PutThrowsLeaf(cb, root.left, key, val);
    } else if cb.cmp(root.key, key) > 0 && root.right.Node? {
      PutThrowsLeaf(cb, root.right, key, val);
    }
  }

  lemma PutHeld(cb: Callbacks, st: State, key: Ptr, val: Ptr, p: Ptr)
    ensures var r := Put(cb, st, key, val, true).0;
      && (cb.keyFree ==> KeysHeld(r, p) == KeysHeld(st, p) + One(key, p))
      && (cb.valFree ==> ValsHeld(r, p) == ValsHeld(st, p) + One(val, p))
  {
    if st.tree.Node? {
      var s := NodePut(cb, st.tree, Leaf(key, val));
      PutThrowsLeaf(cb, st.tree, key, val);
      SpliceCounts(cb, st.tree, Leaf(key, val), p);
      if s.out.Node? {
        NodeFreeHeld(cb, st.(tree := s.tree), s.out.key, s.out.val, p);
      }
    }
  }

  lemma RemoveHeld(cb: Callbacks, st: State, key: Ptr, p: Ptr)
    ensures var (r, v) := Remove(cb, st, key);
      var out := NodeRemove(cb, st.tree, key).out;
      && (cb.keyFree ==> KeysHeld(r, p) + KeysBelow(out, p) == KeysHeld(st, p))
      && (cb.valFree ==> ValsHeld(r, p) + One(v, p) + ValsBelow(out, p) == ValsHeld(st, p) + One(NULL, p))
  {
    var r := NodeRemove(cb, st.tree, key);
    RemoveCounts(cb, st.tree, key, p);
    RemovedIsLeaf(cb, st.tree, key);
    var st' := st.(tree := r.tree);
    if r.out.Node? {
      NodeFreeHeld(cb, st', r.out.key, r.out.val, p);
    }
    if r.removed.Node? {
      NodeFreeHeld(cb, FreeOut(cb, st', r.out), r.removed.key, NULL, p);
    }
  }

  lemma {:induction false} RemovedIsLeaf(cb: Callbacks, t: Tree, key: Ptr)
    ensures var x := NodeRemove(cb, t, key).removed; x.Node? ==> x == Leaf(x.key, x.val)
    ensures var r := NodeRemove(cb, t, key); r.removed.Nil? ==> r.tree == t && r.out == Nil
    decreases t
  {
    if t.Nil? {
    } else {
      RemovedIsLeaf(cb, t.left, key);
      RemovedIsLeaf(cb, t.right, key);
    }
  }

  /** Remove returns what get answers, whatever the comparator says. */
  lemma {:induction false} RemoveReturns(cb: Callbacks, t: Tree, key: Ptr)
    ensures var x := NodeRemove(cb, t, key).removed;
      Find(cb, t, key) == if x.Node? then Some(x.val) else None
    decreases t
  {
    if t.Nil? {
    } else {
      RemoveReturns(cb, t.left, key);
      RemoveReturns(cb, t.right, key);
    }
  }

  lemma DeleteHeld(cb: Callbacks, st: State, key: Ptr, p: Ptr)
    ensures var r := Delete(cb, st, key);
      var out := NodeRemove(cb, st.tree, key).out;
      && (cb.keyFree ==> KeysHeld(r, p) + KeysBelow(out, p) == KeysHeld(st, p))
      && (cb.valFree ==>
        ValsHeld(r, p) + ValsBelow(out, p) == ValsHeld(st, p) + (if Get(cb, st, key) != NULL then One(NULL, p) else 0))
  {
    var (r, v) := Remove(cb, st, key);
    RemoveReturns(cb, st.tree, key);
    RemoveHeld(cb, st, key, p);
    TimesAppend(r.valsFreed, v, p);
  }

  lemma {:induction false} AxeHeld(cb: Callbacks, st: State, t: Tree, p: Ptr)
    ensures var r := NodeAxe(cb, st, t);
      && (cb.keyFree ==> Times(r.keysFreed, p) == Times(st.keysFreed, p) + KeyCount(t, p))
      && (cb.valFree ==> Times(r.valsFreed, p) == Times(st.valsFreed, p) + ValCount(t, p))
    decreases t
  {
    if t.Nil? {
    } else {
      var st1 := NodeAxe(cb, st, t.right);
      AxeHeld(cb, st, t.right, p);
      AxeHeld(cb, st1, t.left, p);
      NodeFreeHeld(cb, NodeAxe(cb, st1, t.left), t.key, t.val, p);
    }
  }

  /** What a step throws out in its splice. */
  function ThrownOut(cb: Callbacks, st: State, op: Op): Tree {
    if op.OpRemove? || op.OpDelete? then NodeRemove(cb, st.tree, op.key).out else Nil
  }

  /** No removal, when its turn comes, throws out a node with something below it. */
  predicate NeverDrops(cb: Callbacks, script: seq<Op>) {
    script != [] ==>
      var before, op := script[..|script| - 1], script[|script| - 1];
      NeverDrops(cb, before) && Childless(ThrownOut(cb, Exec(cb, before).st, op))
  }

  /** How often the run drops `p` as a key, or as a value. */
  function KeysDropped(cb: Callbacks, script: seq<Op>, p: Ptr): nat {
    if script == [] then 0
    else
      var before, op := script[..|script| - 1], script[|script| - 1];
      KeysDropped(cb, before, p) + KeysBelow(ThrownOut(cb, Exec(cb, before).st, op), p)
  }

  function ValsDropped(cb: Callbacks, script: seq<Op>, p: Ptr): nat {
    if script == [] then 0
    else
      var before, op := script[..|script| - 1], script[|script| - 1];
      ValsDropped(cb, before, p) + ValsBelow(ThrownOut(cb, Exec(cb, before).st, op), p)
  }

  /** A remove passes or returns one NULL besides; a delete does when there is a value to pass, and
      it passes no NULL that was stored. */
  function NullsOf(cb: Callbacks, st: State, op: Op): nat {
    match op
    case OpRemove(_) => 1
    case OpDelete(k) => if Get(cb, st, k) != NULL then 1 else 0
    case _ => 0
  }

  function Nulls(cb: Callbacks, script: seq<Op>): nat {
    if script == [] then 0
    else
      var before := script[..|script| - 1];
      Nulls(cb, before) + NullsOf(cb, Exec(cb, before).st, script[|script| - 1])
  }

  function NullsAs(n: nat, p: Ptr): nat {
    if p == NULL then n else 0
  }

  lemma StepAccounted(cb: Callbacks, r: Run, op: Op, p: Ptr)
    ensures var r', out := Step(cb, r, op), ThrownOut(cb, r.st, op);
      && (cb.keyFree ==>
        r'.keysIn[p] - KeysHeld(r'.st, p) == r.keysIn[p] - KeysHeld(r.st, p) + KeysBelow(out, p))
      && (cb.valFree ==>
        r'.valsIn[p] + NullsAs(NullsOf(cb, r.st, op), p) - ValsHeld(r'.st, p) - r'.valsOut[p]
          == r.valsIn[p] - ValsHeld(r.st, p) - r.valsOut[p] + ValsBelow(out, p))
  {
    match op
    case OpPut(k, v, _) => PutHeld(cb, r.st, k, v, p);
    case OpGet(_) =>
    case OpRemove(k) => RemoveHeld(cb, r.st, k, p);
    case OpDelete(k) => DeleteHeld(cb, r.st, k, p);
    case OpAxe => AxeHeld(cb, r.st, r.st.tree, p);
  }

  /** Over every run, whatever the comparator says: what put accepted is stored, was freed, was
      returned, or was dropped, once. */
  lemma {:induction false} EverythingAccounted(cb: Callbacks, script: seq<Op>, p: Ptr)
    ensures var r := Exec(cb, script);
      && (cb.keyFree ==> r.keysIn[p] == KeysHeld(r.st, p) + KeysDropped(cb, script, p))
      && (cb.valFree ==>
        r.valsIn[p] + NullsAs(Nulls(cb, script), p) == ValsHeld(r.st, p) + r.valsOut[p] + ValsDropped(cb, script, p))
  {
    if script == [] {
    } else {
      var before := script[..|script| - 1];
      EverythingAccounted(cb, before, p);
      StepAccounted(cb, Exec(cb, before), script[|script| - 1], p);
    }
  }

  lemma {:induction false} DropsCounted(cb: Callbacks, script: seq<Op>)
    ensures NeverDrops(cb, script) ==> forall p :: KeysDropped(cb, script, p) == 0 && ValsDropped(cb, script, p) == 0
    ensures !NeverDrops(cb, script) ==> exists p :: KeysDropped(cb, script, p) > 0
  {
    if script == [] {
    } else {
      var before, op := script[..|script| - 1], script[|script| - 1];
      DropsCounted(cb, before);
      var out := ThrownOut(cb, Exec(cb, before).st, op);
      if !NeverDrops(cb, before) {
        var p :| KeysDropped(cb, before, p) > 0;
        assert KeysDropped(cb, script, p) > 0;
      } else if !Childless(out) {
        var child := if out.left.Node? then out.left else out.right;
        assert KeyCount(child, child.key) > 0;
        assert KeysDropped(cb, script, child.key) > 0;
      } else {
        forall p
          ensures KeysDropped(cb, script, p) == 0 && ValsDropped(cb, script, p) == 0
        {
          assert KeysBelow(out, p) == 0 && ValsBelow(out, p) == 0;
          assert KeysDropped(cb, before, p) == 0 && ValsDropped(cb, before, p) == 0;
        }
      }
    }
  }

  /** Every key accepted by put is stored or was passed to the key callback, once; every value is
      stored, or was passed to the value callback, or was returned by remove, once; and the NULLs
      that removals bring into play are counted with them. */
  ghost predicate Conserved(cb: Callbacks, script: seq<Op>) {
    var r := Exec(cb, script);
    && (cb.keyFree ==> forall p :: r.keysIn[p] == KeysHeld(r.st, p))
    && (cb.valFree ==> forall p ::
          r.valsIn[p] + NullsAs(Nulls(cb, script), p) == ValsHeld(r.st, p) + r.valsOut[p])
  }

  /** Over every run, whatever the comparator says, all is conserved exactly when no removal
      throws out a node with something below it. */
  lemma OwnershipExact(cb: Callbacks, script: seq<Op>)
    ensures NeverDrops(cb, script) ==> Conserved(cb, script)
    ensures cb.keyFree && Conserved(cb, script) ==> NeverDrops(cb, script)
  {
    DropsCounted(cb, script);
    forall p {
      EverythingAccounted(cb, script, p);
    }
  }

  /** On keys that the comparator orders no removal does. */
  lemma {:induction false} OrderedNeverDrops(cb: Callbacks, S: iset<Ptr>, script: seq<Op>)
    requires Orders(cb.cmp, S) && KeysWithin(script, S)
    ensures NeverDrops(cb, script)
  {
    if script == [] {
    } else {
      var before, op := script[..|script| - 1], script[|script| - 1];
      assert op in script;
      assert forall x | x in before :: x in script;
      OrderedNeverDrops(cb, S, before);
      TreeRefinesDictionary(cb, S, before);
      if op.OpRemove? || op.OpDelete? {
        RemoveSorted(cb, S, Exec(cb, before).st.tree, op.key);
      }
    }
  }

  lemma OwnershipConserved(cb: Callbacks, S: iset<Ptr>, script: seq<Op>)
    requires Orders(cb.cmp, S) && KeysWithin(script, S)
    ensures Conserved(cb, script)
  {
    OrderedNeverDrops(cb, S, script);
    OwnershipExact(cb, script);
  }

  /** Everything was freed or returned, and once. */
  ghost predicate AllReturned(cb: Callbacks, script: seq<Op>) {
    var r := Exec(cb, script);
    && (forall p :: r.keysIn[p] == Times(r.st.keysFreed, p))
    && (forall p :: r.valsIn[p] + NullsAs(Nulls(cb, script), p) == Times(r.st.valsFreed, p) + r.valsOut[p])
  }

  /** After axe nothing is stored, and all was freed or returned exactly when nothing had been
      dropped before. */
  lemma NothingLeftAfterAxe(cb: Callbacks, script: seq<Op>)
    requires cb.keyFree && cb.valFree
    ensures Exec(cb, script + [OpAxe]).st.tree == Nil
    ensures AllReturned(cb, script + [OpAxe]) <==> NeverDrops(cb, script)
  {
    var all := script + [OpAxe];
    assert all[..|all| - 1] == script;
    OwnershipExact(cb, all);
    var r := Exec(cb, all);
    assert forall p :: KeysHeld(r.st, p) == Times(r.st.keysFreed, p) && ValsHeld(r.st, p) == Times(r.st.valsFreed, p);
  }

  // ----- A put on an equal key -----

  /** Where the stored key that equals `key` is. */
  lemma WhereEqual(cb: Callbacks, S: iset<Ptr>, t: Tree, was: Ptr, key: Ptr)
    requires Orders(cb.cmp, S) && key in S && t.Node? && Sorted(cb, S, t) && was in Keys(t) && cb.cmp(was, key) == 0
    ensures var c, l, r := cb.cmp(t.key, key), Keys(t.left), Keys(t.right);
      && t.key !in l && t.key !in r
      && (c < 0 ==> was in l && was != t.key && was !in r)
      && (c > 0 ==> was in r && was != t.key && was !in l)
      && (c == 0 ==> was == t.key)
  {
    assert t.key in Keys(t);
    Sides(cb, S, t, key);
    Order3(cb.cmp, S, t.key, key, was);
    Order3(cb.cmp, S, t.key, was, key);
  }

  /** One key for another, to the left of `k`, to its right, or in its place. */
  lemma ExchangeKey(l: set<Ptr>, k: Ptr, r: set<Ptr>, was: Ptr, key: Ptr)
    ensures was != k && was !in r ==> (l - {was} + {key}) + {k} + r == l + {k} + r - {was} + {key}
    ensures was != k && was !in l ==> l + {k} + (r - {was} + {key}) == l + {k} + r - {was} + {key}
    ensures k !in l && k !in r ==> l + {key} + r == l + {k} + r - {k} + {key}
  {}

  /** A put on an equal key throws out a leaf with the old key and value. */
  lemma {:induction false} PutReplaces(cb: Callbacks, S: iset<Ptr>, t: Tree, was: Ptr, key: Ptr, val: Ptr)
    requires Orders(cb.cmp, S) && key in S && Sorted(cb, S, t) && was in Keys(t) && cb.cmp(was, key) == 0
    ensures var s := NodePut(cb, t, Leaf(key, val));
      && Find(cb, t, key).Some? && s.out == Leaf(was, Find(cb, t, key).value)
      && Keys(s.tree) == Keys(t) - {was} + {key}
    decreases t
  {
    WhereEqual(cb, S, t, was, key);
    ExchangeKey(Keys(t.left), t.key, Keys(t.right), was, key);
    if cb.cmp(t.key, key) < 0 {
      PutReplaces(cb, S, t.left, was, key, val);
    } else if cb.cmp(t.key, key) > 0 {
      PutReplaces(cb, S, t.right, was, key, val);
    }
  }

  /** It stores the new key and frees the old one, and likewise with the values. */
  lemma PutTakesNewKey(cb: Callbacks, S: iset<Ptr>, st: State, was: Ptr, key: Ptr, val: Ptr)
    requires Orders(cb.cmp, S) && key in S && Sorted(cb, S, st.tree)
    requires was in Keys(st.tree) && cb.cmp(was, key) == 0
    ensures var r := Put(cb, st, key, val, true).0;
      && Keys(r.tree) == Keys(st.tree) - {was} + {key}
      && r.keysFreed == st.keysFreed + (if cb.keyFree then [was] else [])
      && Find(cb, st.tree, key).Some?
      && r.valsFreed == st.valsFreed + (if cb.valFree then [Find(cb, st.tree, key).value] else [])
  {
    PutReplaces(cb, S, st.tree, was, key, val);
  }

  // ----- A put that fails -----

  /** A put succeeds exactly when there is memory for its node; else it changes nothing. */
  lemma PutSucceeds(cb: Callbacks, st: State, key: Ptr, val: Ptr, allocOk: bool)
    ensures var (r, ok) := Put(cb, st, key, val, allocOk); ok == allocOk && (!ok ==> r == st)
    ensures Find(cb, st.tree, key).None? && allocOk ==>
      var r := Put(cb, st, key, val, allocOk).0; r.keysFreed == st.keysFreed && r.valsFreed == st.valsFreed
  {
    if st.tree.Node? {
      NewKeyThrowsNothing(cb, st.tree, key, val);
    }
  }

  lemma {:induction false} NewKeyThrowsNothing(cb: Callbacks, t: Tree, key: Ptr, val: Ptr)
    requires t.Node?
    ensures Find(cb, t, key).None? ==> NodePut(cb, t, Leaf(key, val)).out == Nil
    decreases t
  {
    if cb.cmp(t.key, key) < 0 && t.left.Node? {
      NewKeyThrowsNothing(cb, t.left, key, val);
    } else if cb.cmp(t.key, key) > 0 && t.right.Node? {
      NewKeyThrowsNothing(cb, t.right, key, val);
    }
  }

  // ----- The calls themselves -----

  /** The keys and values of a tree, each before those below it, the left ones first. */
  function KeysDown(t: Tree): seq<Ptr> {
    if t.Nil? then [] else [t.key] + KeysDown(t.left) + KeysDown(t.right)
  }

  function ValsDown(t: Tree): seq<Ptr> {
    if t.Nil? then [] else [t.val] + ValsDown(t.left) + ValsDown(t.right)
  }

  function Backwards<T>(s: seq<T>): seq<T> {
    seq(|s|, i requires 0 <= i < |s| => s[|s| - 1 - i])
  }

  lemma BackwardsParts<T>(x: T, a: seq<T>, b: seq<T>)
    ensures Backwards([x] + a + b) == Backwards(b) + Backwards(a) + [x]
  {}

  lemma {:induction false} AxeKeys(cb: Callbacks, st: State, t: Tree)
    ensures NodeAxe(cb, st, t).keysFreed == st.keysFreed + (if cb.keyFree then Backwards(KeysDown(t)) else [])
    decreases t
  {
    if t.Nil? {
    } else {
      AxeKeys(cb, st, t.right);
      AxeKeys(cb, NodeAxe(cb, st, t.right), t.left);
      BackwardsParts(t.key, KeysDown(t.left), KeysDown(t.right));
    }
  }

  lemma {:induction false} AxeVals(cb: Callbacks, st: State, t: Tree)
    ensures NodeAxe(cb, st, t).valsFreed == st.valsFreed + (if cb.valFree then Backwards(ValsDown(t)) else [])
    decreases t
  {
    if t.Nil? {
    } else {
      AxeVals(cb, st, t.right);
      AxeVals(cb, NodeAxe(cb, st, t.right), t.left);
      BackwardsParts(t.val, ValsDown(t.left), ValsDown(t.right));
    }
  }

  /** node_axe calls in the opposite order: each node after those below it, the right ones first. */
  lemma AxeBackwards(cb: Callbacks, st: State, t: Tree)
    ensures var r := NodeAxe(cb, st, t);
      && r.keysFreed == st.keysFreed + (if cb.keyFree then Backwards(KeysDown(t)) else [])
      && r.valsFreed == st.valsFreed + (if cb.valFree then Backwards(ValsDown(t)) else [])
  {
    AxeKeys(cb, st, t);
    AxeVals(cb, st, t);
  }

  /** No record of a call for a callback that is NULL. */
  predicate Silent(cb: Callbacks, st: State, r: State) {
    (!cb.keyFree ==> r.keysFreed == st.keysFreed) && (!cb.valFree ==> r.valsFreed == st.valsFreed)
  }

  lemma RemoveSilent(cb: Callbacks, st: State, key: Ptr)
    ensures Silent(cb, st, Remove(cb, st, key).0) && Silent(cb, st, Delete(cb, st, key))
  {
    var r := NodeRemove(cb, st.tree, key);
    assert Silent(cb, st, FreeOut(cb, st.(tree := r.tree), r.out));
  }

  lemma StepSilent(cb: Callbacks, r: Run, op: Op)
    ensures Silent(cb, r.st, Step(cb, r, op).st)
  {
    match op
    case OpPut(_, _, _) =>
    case OpGet(_) =>
    case OpRemove(k) => RemoveSilent(cb, r.st, k);
    case OpDelete(k) => RemoveSilent(cb, r.st, k);
    case OpAxe => AxeBackwards(cb, r.st, r.st.tree);
  }

  /** A callback that is NULL is never called. */
  lemma {:induction false} NullCallbacksSilent(cb: Callbacks, script: seq<Op>)
    ensures var st := Exec(cb, script).st;
      (!cb.keyFree ==> st.keysFreed == []) && (!cb.valFree ==> st.valsFreed == [])
  {
    if script == [] {
    } else {
      var before, op := script[..|script| - 1], script[|script| - 1];
      NullCallbacksSilent(cb, before);
      StepSilent(cb, Exec(cb, before), op);
    }
  }
}

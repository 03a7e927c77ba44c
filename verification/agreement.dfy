/** The hash table and the tree are the same dictionary: driven by the same operations they
    give the same answers. */
module Agreement {
  import opened Dictionary
  import H = HashSpec
  import HashMap
  import HashRuns
  import T = TreeSpec
  import TreeMap
  import TreeRuns

  /** Both see the same keys as equal. */
  ghost predicate SameKeys(h: H.Callbacks, t: T.Callbacks, S: iset<Ptr>) {
    forall a, b | a in S && b in S :: h.equal(a, b) == (t.cmp(a, b) == 0)
  }

  ghost predicate KeysWithin(script: seq<H.Op>, S: iset<Ptr>) {
    forall op | op in script && !op.OpClean? :: op.key in S
  }

  /** The same operation on a tree; a put has the memory it needs if it had it there. */
  function MirrorOp(h: H.Callbacks, r: H.Run, op: H.Op): T.Op
    requires H.Enabled(r.st, op)
  {
    match op
    case OpPut(k, v, tableOk, itemOk) => T.OpPut(k, v, H.Put(h, r.st, k, v, tableOk, itemOk).1)
    case OpGet(k) => T.OpGet(k)
    case OpRemove(k) => T.OpRemove(k)
    case OpDelete(k) => T.OpDelete(k)
    case OpClean => T.OpAxe
  }

  function Mirror(h: H.Callbacks, script: seq<H.Op>): seq<T.Op>
    requires H.Exec(h, script).Some?
  {
    if script == [] then []
    else
      var before := script[..|script| - 1];
      Mirror(h, before) + [MirrorOp(h, H.Exec(h, before).value, script[|script| - 1])]
  }

  /** Both remember the same history, of keys in S only. */
  ghost predicate InStep(a: H.Run, b: T.Run, S: iset<Ptr>) {
    && a.events == b.events && a.answers == b.answers
    && forall e | e in a.events && !e.Cleared? :: e.key in S
  }

  lemma StepAgrees(h: H.Callbacks, t: T.Callbacks, S: iset<Ptr>, a: H.Run, b: T.Run, op: H.Op)
    requires HashMap.Sound(h) && TreeMap.Orders(t.cmp, S) && SameKeys(h, t, S)
    requires HashRuns.Invariant(h, a.st) && HashRuns.Refines(h, a) && TreeRuns.Refines(t, S, b)
    requires InStep(a, b, S) && H.Enabled(a.st, op) && (op.OpClean? || op.key in S)
    ensures InStep(H.Step(h, a, op), T.Step(t, b, MirrorOp(h, a, op)), S)
  {
    if op.OpGet? || op.OpRemove? {
      var k := op.key;
      LatestSame(h.equal, TreeRuns.Same(t), a.events, k);
      assert HashRuns.Answer(h, a.st, k) == Latest(h.equal, a.events, k);
      assert T.Find(t, b.st.tree, k) == Latest(TreeRuns.Same(t), b.events, k);
      HashRuns.RemoveAnswers(h, a.st, k, k);
      TreeRuns.RemoveRefines(t, S, b.st, k);
    }
  }

  /** Every get and every remove returns the same from both. */
  lemma {:induction false} TableAndTreeAgree(h: H.Callbacks, t: T.Callbacks, S: iset<Ptr>, script: seq<H.Op>)
    requires HashMap.Sound(h) && TreeMap.Orders(t.cmp, S) && SameKeys(h, t, S)
    requires KeysWithin(script, S) && H.Exec(h, script).Some?
    ensures InStep(H.Exec(h, script).value, T.Exec(t, Mirror(h, script)), S)
    ensures TreeRuns.KeysWithin(Mirror(h, script), S)
  {
    if script == [] {
    } else {
      var before, op := script[..|script| - 1], script[|script| - 1];
      assert op in script;
      assert forall x | x in before :: x in script;
      TableAndTreeAgree(h, t, S, before);
      HashRuns.TableRefinesDictionary(h, before);
      TreeRuns.TreeRefinesDictionary(t, S, Mirror(h, before));
      var all := Mirror(h, script);
      assert all[..|all| - 1] == Mirror(h, before);
      StepAgrees(h, t, S, H.Exec(h, before).value, T.Exec(t, Mirror(h, before)), op);
    }
  }
}

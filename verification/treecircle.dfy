/** What the tree loses under a comparator that is no order: four keys on which it leads round
    in a circle, and one run over them. */
module TreeCircle {
  import opened Dictionary
  import opened TreeSpec
  import opened TreeRuns

  /** b below c below a below d, but d below b. */
  ghost predicate Circle(cmp: (Ptr, Ptr) -> int, a: Ptr, b: Ptr, c: Ptr, d: Ptr) {
    && cmp(a, a) == 0 && cmp(c, c) == 0 && cmp(d, d) == 0
    && cmp(a, b) > 0 && cmp(a, c) > 0 && cmp(a, d) < 0
    && cmp(b, c) < 0 && cmp(c, a) < 0
    && cmp(d, a) > 0 && cmp(d, b) < 0 && cmp(d, c) > 0
  }

  datatype Keys4 = Keys4(a: Ptr, b: Ptr, c: Ptr, d: Ptr, val: Ptr)

  ghost predicate Turns(cb: Callbacks, k: Keys4) {
    cb.keyFree && Circle(cb.cmp, k.a, k.b, k.c, k.d)
  }

  function PutOf(k: Keys4, key: Ptr): Op { OpPut(key, k.val, true) }

  /** The root of four is removed. */
  function Spread(k: Keys4): seq<Op> {
    Puts(k) + [OpRemove(k.a)]
  }

  function Puts(k: Keys4): seq<Op> {
    [PutOf(k, k.a)] + [PutOf(k, k.b)] + [PutOf(k, k.c)] + [PutOf(k, k.d)]
  }

  /** Two of the keys are put again, and the new root is removed. */
  function SpreadOn(k: Keys4): seq<Op> {
    Spread(k) + [PutOf(k, k.c)] + [PutOf(k, k.a)] + [OpRemove(k.d)]
  }

  // ----- The trees on the way -----

  function Side(k: Keys4): Tree { Node(Leaf(k.c, k.val), k.b, k.val, Nil) }
  function Full(k: Keys4): Tree { Node(Leaf(k.d, k.val), k.a, k.val, Side(k)) }
  function Spliced(k: Keys4): Tree { Node(Side(k), k.d, k.val, Nil) }
  function Hook(k: Keys4): Tree { Node(Leaf(k.a, k.val), k.c, k.val, Nil) }
  function Refilled(k: Keys4): Tree { Node(Side(k), k.d, k.val, Hook(k)) }

  lemma FourPuts(cb: Callbacks, k: Keys4)
    requires Turns(cb, k)
    ensures NodePut(cb, Leaf(k.a, k.val), Leaf(k.b, k.val)) == Splice(Node(Nil, k.a, k.val, Leaf(k.b, k.val)), Nil)
    ensures NodePut(cb, Node(Nil, k.a, k.val, Leaf(k.b, k.val)), Leaf(k.c, k.val))
      == Splice(Node(Nil, k.a, k.val, Side(k)), Nil)
    ensures NodePut(cb, Node(Nil, k.a, k.val, Side(k)), Leaf(k.d, k.val)) == Splice(Full(k), Nil)
  {
    assert NodePut(cb, Leaf(k.b, k.val), Leaf(k.c, k.val)) == Splice(Side(k), Nil);
  }

  lemma FirstSplice(cb: Callbacks, k: Keys4)
    requires Turns(cb, k)
    ensures NodeRemove(cb, Full(k), k.a) == Removal(Spliced(k), Leaf(k.a, k.val), Nil)
    ensures Find(cb, Spliced(k), k.c) == None
  {
    assert NodePut(cb, Leaf(k.d, k.val), Side(k)) == Splice(Spliced(k), Nil);
  }

  lemma TwoPuts(cb: Callbacks, k: Keys4)
    requires Turns(cb, k)
    ensures NodePut(cb, Spliced(k), Leaf(k.c, k.val)) == Splice(Node(Side(k), k.d, k.val, Leaf(k.c, k.val)), Nil)
    ensures NodePut(cb, Node(Side(k), k.d, k.val, Leaf(k.c, k.val)), Leaf(k.a, k.val)) == Splice(Refilled(k), Nil)
  {
    assert NodePut(cb, Leaf(k.c, k.val), Leaf(k.a, k.val)) == Splice(Hook(k), Nil);
  }

  lemma SecondSplice(cb: Callbacks, k: Keys4)
    requires Turns(cb, k)
    ensures NodeRemove(cb, Refilled(k), k.d) == Removal(Side(k), Leaf(k.d, k.val), Hook(k))
  {
    assert NodePut(cb, Leaf(k.c, k.val), Hook(k)) == Splice(Leaf(k.c, k.val), Hook(k));
    assert NodePut(cb, Side(k), Hook(k)) == Splice(Side(k), Hook(k));
  }

  // ----- The run -----

  lemma ExecSnoc(cb: Callbacks, script: seq<Op>, op: Op)
    ensures Exec(cb, script + [op]) == Step(cb, Exec(cb, script), op)
  {
    assert (script + [op])[..|script|] == script;
  }

  lemma ThenPut(cb: Callbacks, script: seq<Op>, op: Op, t: Tree)
    requires op.OpPut? && op.allocOk && Exec(cb, script).st.tree.Node?
    requires NodePut(cb, Exec(cb, script).st.tree, Leaf(op.key, op.val)) == Splice(t, Nil)
    ensures Exec(cb, script + [op]).st.tree == t
    ensures Exec(cb, script + [op]).events == Exec(cb, script).events + [Stored(op.key, op.val)]
  {
    ExecSnoc(cb, script, op);
  }

  lemma AfterPuts(cb: Callbacks, k: Keys4)
    requires Turns(cb, k)
    ensures Exec(cb, Puts(k)).st.tree == Full(k)
    ensures Exec(cb, Puts(k)).events
      == [Stored(k.a, k.val)] + [Stored(k.b, k.val)] + [Stored(k.c, k.val)] + [Stored(k.d, k.val)]
  {
    FourPuts(cb, k);
    var one := [PutOf(k, k.a)];
    assert one == [] + one;
    ExecSnoc(cb, [], one[0]);
    assert Exec(cb, one).events == [Stored(k.a, k.val)];
    ThenPut(cb, one, PutOf(k, k.b), Node(Nil, k.a, k.val, Leaf(k.b, k.val)));
    var two := one + [PutOf(k, k.b)];
    ThenPut(cb, two, PutOf(k, k.c), Node(Nil, k.a, k.val, Side(k)));
    ThenPut(cb, two + [PutOf(k, k.c)], PutOf(k, k.d), Full(k));
  }

  lemma AfterSpread(cb: Callbacks, k: Keys4)
    requires Turns(cb, k)
    ensures Exec(cb, Spread(k)).st.tree == Spliced(k)
    ensures Exec(cb, Spread(k)).events == Exec(cb, Puts(k)).events + [Removed(k.a)]
  {
    AfterPuts(cb, k);
    FirstSplice(cb, k);
    ExecSnoc(cb, Puts(k), OpRemove(k.a));
  }

  lemma LastStored(same: (Ptr, Ptr) -> bool, events: seq<Event>, k: Keys4)
    requires same(k.c, k.c) && !same(k.a, k.c) && !same(k.d, k.c)
    ensures Latest(same, events + [Stored(k.c, k.val)] + [Stored(k.d, k.val)] + [Removed(k.a)], k.c) == Some(k.val)
  {
    var e := events + [Stored(k.c, k.val)];
    LatestAppend(same, events, Stored(k.c, k.val), k.c);
    LatestAppend(same, e, Stored(k.d, k.val), k.c);
    LatestAppend(same, e + [Stored(k.d, k.val)], Removed(k.a), k.c);
  }

  /** The splice hangs c where no lookup of c comes: the tree answers NULL for a key that was put
      and never removed. */
  lemma LosesAKey(cb: Callbacks, k: Keys4)
    requires Turns(cb, k)
    ensures Get(cb, Exec(cb, Spread(k)).st, k.c) == NULL
    ensures Latest(Same(cb), Exec(cb, Spread(k)).events, k.c) == Some(k.val)
  {
    AfterPuts(cb, k);
    AfterSpread(cb, k);
    FirstSplice(cb, k);
    LastStored(Same(cb), [Stored(k.a, k.val)] + [Stored(k.b, k.val)], k);
  }

  /** In the end the splice meets c again and throws out a node with a below it: a is neither
      stored nor freed. */
  lemma DropsAKey(cb: Callbacks, k: Keys4)
    requires Turns(cb, k)
    ensures !NeverDrops(cb, SpreadOn(k)) && !Conserved(cb, SpreadOn(k))
    ensures KeysDropped(cb, SpreadOn(k), k.a) > 0
  {
    AfterSpread(cb, k);
    TwoPuts(cb, k);
    SecondSplice(cb, k);
    var s := Spread(k) + [PutOf(k, k.c)];
    ThenPut(cb, Spread(k), PutOf(k, k.c), Node(Side(k), k.d, k.val, Leaf(k.c, k.val)));
    ThenPut(cb, s, PutOf(k, k.a), Refilled(k));
    var before := s + [PutOf(k, k.a)];
    assert SpreadOn(k) == before + [OpRemove(k.d)] && SpreadOn(k)[..|before|] == before;
    assert ThrownOut(cb, Exec(cb, before).st, OpRemove(k.d)) == Hook(k);
    OwnershipExact(cb, SpreadOn(k));
  }
}

/** The comparators of a/collect.c narrow a 64-bit difference to an `int`.  Where they are
    orders, and what the tree makes of keys where they are not. */
module Collect {
  import opened Dictionary
  import opened TreeSpec
  import opened TreeMap
  import opened TreeRuns
  import opened TreeCircle

  /** `(intptr_t)p` */
  function Signed(p: Ptr): int {
    if p < 0x8000_0000_0000_0000 then p else p - 0x1_0000_0000_0000_0000
  }

  /** The conversion of a 64-bit difference to `int`, two's complement. */
  function Narrow(d: int): int {
    (d + 0x8000_0000) % 0x1_0000_0000 - 0x8000_0000
  }

  function CmpIntptr(a: Ptr, b: Ptr): int {
    Narrow(Signed(a) - Signed(b))
  }

  function CmpUintptr(a: Ptr, b: Ptr): int {
    Narrow((a - b) % 0x1_0000_0000_0000_0000)
  }

  /** The 64-bit wrap and the sign are lost in the narrowing: the two comparators are one. */
  lemma SameComparator(a: Ptr, b: Ptr)
    ensures CmpIntptr(a, b) == CmpUintptr(a, b) == Narrow(a - b)
  {}

  // ----- Where they are orders -----

  /** All keys lie less than 2^31 apart. */
  ghost predicate Close(key: Ptr -> int, S: iset<Ptr>) {
    forall a, b | a in S && b in S :: -0x8000_0000 < key(a) - key(b) < 0x8000_0000
  }

  function Value(p: Ptr): int { p }

  /** On such keys the comparators say what < says, so they are total orders. */
  lemma CloseIntptr(S: iset<Ptr>)
    requires Close(Signed, S)
    ensures forall a, b | a in S && b in S :: CmpIntptr(a, b) == Signed(a) - Signed(b)
    ensures Orders(CmpIntptr, S)
  {}

  lemma CloseUintptr(S: iset<Ptr>)
    requires Close(Value, S)
    ensures forall a, b | a in S && b in S :: CmpUintptr(a, b) == a - b
    ensures Orders(CmpUintptr, S)
  {
    forall a, b | a in S && b in S
      ensures CmpUintptr(a, b) == a - b
    {
      SameComparator(a, b);
      assert -0x8000_0000 < Value(a) - Value(b) < 0x8000_0000;
    }
  }

  /** How far `a` lies ahead of `base` on the circle of 32-bit residues. */
  function Ahead(base: Ptr, a: Ptr): nat {
    (a - base) % 0x1_0000_0000
  }

  predicate SameResidue(a: Ptr, b: Ptr) { Ahead(a, b) == 0 }

  /** All keys lie on the half of the circle that starts at `base`. */
  ghost predicate HalfFrom(base: Ptr, S: iset<Ptr>) {
    forall a | a in S :: Ahead(base, a) < 0x8000_0000
  }

  /** Some key of S has all others at most half the circle ahead of it. */
  ghost predicate OnHalfCircle(S: iset<Ptr>) {
    S != iset{} ==> exists base :: base in S && HalfFrom(base, S)
  }

  lemma NarrowAhead(base: Ptr, a: Ptr, b: Ptr)
    requires Ahead(base, a) < 0x8000_0000 && Ahead(base, b) < 0x8000_0000
    ensures Narrow(a - b) == Ahead(base, a) - Ahead(base, b)
  {
    assert (a - b) % 0x1_0000_0000 == (Ahead(base, a) - Ahead(base, b)) % 0x1_0000_0000;
  }

  /** `m` is first of the keys of S whose rank is below `n`. */
  ghost predicate FirstBelow(cmp: (Ptr, Ptr) -> int, rank: Ptr -> nat, S: iset<Ptr>, m: Ptr, n: nat) {
    m in S && forall a | a in S && rank(a) < n :: cmp(m, a) <= 0
  }

  /** Keys of equal rank are equal. */
  ghost predicate Ranked(cmp: (Ptr, Ptr) -> int, rank: Ptr -> nat, S: iset<Ptr>) {
    forall a, b | a in S && b in S && rank(a) == rank(b) :: cmp(a, b) == 0
  }

  /** Keys of finitely many ranks have a first one in every order. */
  lemma {:induction false} FirstKey(cmp: (Ptr, Ptr) -> int, rank: Ptr -> nat, S: iset<Ptr>, x: Ptr, n: nat)
    requires Orders(cmp, S) && Ranked(cmp, rank, S) && x in S && rank(x) < n
    ensures exists m :: FirstBelow(cmp, rank, S, m, n)
    decreases n
  {
    if y :| y in S && rank(y) < n - 1 {
      FirstKey(cmp, rank, S, y, n - 1);
      var m :| FirstBelow(cmp, rank, S, m, n - 1);
      if z :| z in S && rank(z) == n - 1 && cmp(m, z) > 0 {
        LowerFirst(cmp, rank, S, m, z, n);
      } else {
        assert FirstBelow(cmp, rank, S, m, n);
      }
    } else {
      assert FirstBelow(cmp, rank, S, x, n);
    }
  }

  /** A key that comes before the first of the lower ranks is first itself. */
  lemma LowerFirst(cmp: (Ptr, Ptr) -> int, rank: Ptr -> nat, S: iset<Ptr>, m: Ptr, z: Ptr, n: nat)
    requires n > 0 && Orders(cmp, S) && Ranked(cmp, rank, S) && FirstBelow(cmp, rank, S, m, n - 1)
    requires z in S && rank(z) == n - 1 && cmp(m, z) > 0
    ensures FirstBelow(cmp, rank, S, z, n)
  {
    forall a | a in S && rank(a) < n
      ensures cmp(z, a) <= 0
    {
      Order3(cmp, S, m, z, a);
      Order3(cmp, S, z, m, a);
    }
  }

  function Residue(a: Ptr): nat { a % 0x1_0000_0000 }

  /** On any key set whatever the comparators are orders exactly when the keys, modulo 2^32, lie
      on a half circle that starts at one of them. */
  lemma OrdersUintptr(S: iset<Ptr>)
    ensures Orders(CmpUintptr, S) <==> OnHalfCircle(S)
  {
    if Orders(CmpUintptr, S) {
      OrderedHalf(S);
    }
    if OnHalfCircle(S) {
      HalfOrders(S);
    }
  }

  lemma EqualResidues(a: Ptr, b: Ptr)
    ensures Residue(a) == Residue(b) ==> CmpUintptr(a, b) == 0
  {
    SameComparator(a, b);
    if Residue(a) == Residue(b) {
      assert a - b == 0x1_0000_0000 * (a / 0x1_0000_0000 - b / 0x1_0000_0000);
    }
  }

  lemma BeforeIsAhead(a: Ptr, b: Ptr)
    requires CmpUintptr(a, b) <= 0 && (CmpUintptr(a, b) < 0 <==> CmpUintptr(b, a) > 0)
    ensures Ahead(a, b) < 0x8000_0000
  {
    SameComparator(a, b);
    SameComparator(b, a);
    NarrowMeaning(b - a);
    NarrowMeaning(a - b);
  }

  /** Narrowing keeps the residue, the upper half of the circle as negative numbers. */
  lemma NarrowMeaning(d: int)
    ensures var m := d % 0x1_0000_0000; Narrow(d) == if m < 0x8000_0000 then m else m - 0x1_0000_0000
    ensures (-d) % 0x1_0000_0000 == if d % 0x1_0000_0000 == 0 then 0 else 0x1_0000_0000 - d % 0x1_0000_0000
  {}

  lemma OrderedHalf(S: iset<Ptr>)
    requires Orders(CmpUintptr, S)
    ensures OnHalfCircle(S)
  {
    if x :| x in S {
      forall a, b {
        EqualResidues(a, b);
      }
      FirstKey(CmpUintptr, Residue, S, x, 0x1_0000_0000);
      var m :| FirstBelow(CmpUintptr, Residue, S, m, 0x1_0000_0000);
      forall a | a in S
        ensures Ahead(m, a) < 0x8000_0000
      {
        assert Residue(a) < 0x1_0000_0000;
        Order3(CmpUintptr, S, m, a, m);
        BeforeIsAhead(m, a);
      }
      assert HalfFrom(m, S);
    }
  }

  lemma HalfOrders(S: iset<Ptr>)
    requires OnHalfCircle(S)
    ensures Orders(CmpUintptr, S)
  {
    if S != iset{} {
      var base :| base in S && HalfFrom(base, S);
      forall a, b | a in S && b in S
        ensures CmpUintptr(a, b) == Ahead(base, a) - Ahead(base, b)
      {
        SameComparator(a, b);
        NarrowAhead(base, a, b);
      }
    }
  }

  lemma OrdersIntptr(S: iset<Ptr>)
    ensures Orders(CmpIntptr, S) <==> OnHalfCircle(S)
  {
    forall a, b
      ensures CmpIntptr(a, b) == CmpUintptr(a, b)
    {
      SameComparator(a, b);
    }
    SameOrder(CmpIntptr, CmpUintptr, S);
    OrdersUintptr(S);
  }

  lemma SameOrder(f: (Ptr, Ptr) -> int, g: (Ptr, Ptr) -> int, S: iset<Ptr>)
    requires forall a, b :: f(a, b) == g(a, b)
    ensures Orders(f, S) <==> Orders(g, S)
  {}

  /** All keys from `lo` to `hi`. */
  ghost function Window(key: Ptr -> int, lo: int, hi: int): iset<Ptr> {
    iset p: Ptr | lo <= key(p) <= hi
  }

  /** Two opposite keys lie on no half circle. */
  lemma Opposite(S: iset<Ptr>, a: Ptr, b: Ptr)
    requires a in S && b in S && Ahead(a, b) == 0x8000_0000
    ensures !OnHalfCircle(S)
  {
    forall base | base in S
      ensures !HalfFrom(base, S)
    {
      OneIsFar(base, a, b);
    }
  }

  lemma OneIsFar(base: Ptr, a: Ptr, b: Ptr)
    requires Ahead(a, b) == 0x8000_0000
    ensures Ahead(base, a) >= 0x8000_0000 || Ahead(base, b) >= 0x8000_0000
  {}

  lemma SignedAhead(a: Ptr, b: Ptr)
    requires 0 <= Signed(b) - Signed(a) < 0x1_0000_0000
    ensures Ahead(a, b) == Signed(b) - Signed(a)
  {}

  lemma ValueAhead(a: Ptr, b: Ptr)
    requires 0 <= Value(b) - Value(a) < 0x1_0000_0000
    ensures Ahead(a, b) == Value(b) - Value(a)
  {}

  /** The key of a signed number. */
  lemma KeyOf(n: int) returns (p: Ptr)
    requires -0x8000_0000_0000_0000 <= n < 0x8000_0000_0000_0000
    ensures Signed(p) == n
  {
    p := if n < 0 then n + 0x1_0000_0000_0000_0000 else n;
  }

  /** So on a window of keys without gaps they are orders exactly when it spans less than
      2^31. */
  lemma WindowIntptr(lo: int, hi: int)
    requires -0x8000_0000_0000_0000 <= lo <= hi < 0x8000_0000_0000_0000
    ensures Orders(CmpIntptr, Window(Signed, lo, hi)) <==> hi - lo < 0x8000_0000
  {
    OrdersIntptr(Window(Signed, lo, hi));
    SignedWindow(lo, hi);
  }

  lemma WindowUintptr(lo: Ptr, hi: Ptr)
    requires lo <= hi
    ensures Orders(CmpUintptr, Window(Value, lo, hi)) <==> hi - lo < 0x8000_0000
  {
    OrdersUintptr(Window(Value, lo, hi));
    ValueWindow(lo, hi);
  }

  lemma SignedWindow(lo: int, hi: int)
    requires -0x8000_0000_0000_0000 <= lo <= hi < 0x8000_0000_0000_0000
    ensures OnHalfCircle(Window(Signed, lo, hi)) <==> hi - lo < 0x8000_0000
  {
    var S := Window(Signed, lo, hi);
    var a := KeyOf(lo);
    if hi - lo < 0x8000_0000 {
      forall b | b in S
        ensures Ahead(a, b) < 0x8000_0000
      {
        SignedAhead(a, b);
      }
      HalfFromFirst(S, a);
    } else {
      var b := KeyOf(lo + 0x8000_0000);
      SignedAhead(a, b);
      Opposite(S, a, b);
    }
  }

  lemma ValueWindow(lo: Ptr, hi: Ptr)
    requires lo <= hi
    ensures OnHalfCircle(Window(Value, lo, hi)) <==> hi - lo < 0x8000_0000
  {
    var S := Window(Value, lo, hi);
    if hi - lo < 0x8000_0000 {
      forall b | b in S
        ensures Ahead(lo, b) < 0x8000_0000
      {
        ValueAhead(lo, b);
      }
      HalfFromFirst(S, lo);
    } else {
      var b: Ptr := lo + 0x8000_0000;
      ValueAhead(lo, b);
      Opposite(S, lo, b);
    }
  }

  lemma HalfFromFirst(S: iset<Ptr>, first: Ptr)
    requires first in S && HalfFrom(first, S)
    ensures OnHalfCircle(S)
  {}

  // ----- The tree over them -----

  /** Over close keys the tree with either comparator is a dictionary of the keys themselves. */
  lemma IntptrTree(keyFree: bool, valFree: bool, S: iset<Ptr>, script: seq<Op>, q: Ptr)
    requires Close(Signed, S) && KeysWithin(script, S) && q in S
    ensures var r := Exec(Callbacks(CmpIntptr, keyFree, valFree), script);
      Find(Callbacks(CmpIntptr, keyFree, valFree), r.st.tree, q) == Latest((a, b) => a == b, r.events, q)
  {
    var cb := Callbacks(CmpIntptr, keyFree, valFree);
    CloseIntptr(S);
    TreeRefinesDictionary(cb, S, script);
    EventKeys(cb, S, script);
    LatestSame(Same(cb), (a, b) => a == b, Exec(cb, script).events, q);
  }

  lemma UintptrTree(keyFree: bool, valFree: bool, S: iset<Ptr>, script: seq<Op>, q: Ptr)
    requires Close(Value, S) && KeysWithin(script, S) && q in S
    ensures var r := Exec(Callbacks(CmpUintptr, keyFree, valFree), script);
      Find(Callbacks(CmpUintptr, keyFree, valFree), r.st.tree, q) == Latest((a, b) => a == b, r.events, q)
  {
    var cb := Callbacks(CmpUintptr, keyFree, valFree);
    CloseUintptr(S);
    TreeRefinesDictionary(cb, S, script);
    EventKeys(cb, S, script);
    LatestSame(Same(cb), (a, b) => a == b, Exec(cb, script).events, q);
  }

  /** Over any keys that the comparators order, the tree is a dictionary of residues. */
  lemma HalfCircleTree(keyFree: bool, valFree: bool, S: iset<Ptr>, script: seq<Op>, q: Ptr)
    requires OnHalfCircle(S) && KeysWithin(script, S) && q in S
    ensures var r := Exec(Callbacks(CmpIntptr, keyFree, valFree), script);
      Find(Callbacks(CmpIntptr, keyFree, valFree), r.st.tree, q) == Latest(SameResidue, r.events, q)
  {
    var cb := Callbacks(CmpIntptr, keyFree, valFree);
    OrdersIntptr(S);
    TreeRefinesDictionary(cb, S, script);
    forall e | e in Exec(cb, script).events && !e.Cleared?
      ensures Same(cb)(e.key, q) == SameResidue(e.key, q)
    {
      ZeroAhead(e.key, q);
    }
    LatestSame(Same(cb), SameResidue, Exec(cb, script).events, q);
  }

  lemma StepKeys(cb: Callbacks, r: Run, op: Op)
    ensures forall e | e in Step(cb, r, op).events ::
      e in r.events || e.Cleared? || (!op.OpAxe? && e.key == op.key)
  {}

  lemma {:induction false} EventKeys(cb: Callbacks, S: iset<Ptr>, script: seq<Op>)
    requires KeysWithin(script, S)
    ensures forall e | e in Exec(cb, script).events && !e.Cleared? :: e.key in S
  {
    if script == [] {
    } else {
      var before := script[..|script| - 1];
      assert script[|script| - 1] in script;
      assert forall op | op in before :: op in script;
      EventKeys(cb, S, before);
      StepKeys(cb, Exec(cb, before), script[|script| - 1]);
    }
  }

  /** Two keys are one to the tree, the second put taking the place of the first, exactly when
      they lie a multiple of 2^32 apart. */
  lemma FarKeysCollide(a: Ptr, b: Ptr, v: Ptr, w: Ptr)
    ensures var cb := Callbacks(CmpIntptr, false, false);
      var one := Put(cb, EMPTY, a, v, true).0;
      var two := Put(cb, one, b, w, true).0;
      && (two.tree == Leaf(b, w) <==> SameResidue(a, b))
      && Get(cb, two, a) == (if SameResidue(a, b) then w else v)
      && Get(cb, two, b) == w
  {
    ZeroAhead(a, b);
    ZeroAhead(a, a);
    ZeroAhead(b, a);
    ZeroAhead(b, b);
    var cb := Callbacks(CmpIntptr, false, false);
    var one := Put(cb, EMPTY, a, v, true).0;
    assert one.tree == Leaf(a, v);
    var two := Put(cb, one, b, w, true).0;
    assert two.tree == NodePut(cb, Leaf(a, v), Leaf(b, w)).tree;
    if CmpIntptr(a, b) < 0 {
      assert two.tree == Node(Leaf(b, w), a, v, Nil);
      assert Find(cb, two.tree, b) == Find(cb, Leaf(b, w), b);
    } else if CmpIntptr(a, b) > 0 {
      assert two.tree == Node(Nil, a, v, Leaf(b, w));
      assert Find(cb, two.tree, b) == Find(cb, Leaf(b, w), b);
    } else {
      assert two.tree == Leaf(b, w);
    }
  }

  lemma ZeroAhead(a: Ptr, b: Ptr)
    ensures CmpIntptr(a, b) == 0 <==> SameResidue(a, b)
    ensures SameResidue(a, b) <==> SameResidue(b, a)
  {
    SameComparator(a, b);
  }

  // ----- Where they are none -----

  /** What the comparators say of keys of 32 bits. */
  ghost predicate SignsByDistance(cmp: (Ptr, Ptr) -> int) {
    forall x: Ptr, y: Ptr | x < 0x1_0000_0000 && y < 0x1_0000_0000 ::
      && (cmp(x, y) == 0 <==> x == y)
      && (cmp(x, y) > 0 <==> y < x < y + 0x8000_0000 || x < y - 0x8000_0000)
  }

  lemma Signs(x: Ptr, y: Ptr)
    requires x < 0x1_0000_0000 && y < 0x1_0000_0000
    ensures CmpIntptr(x, y) == CmpUintptr(x, y)
    ensures CmpIntptr(x, y) == 0 <==> x == y
    ensures CmpIntptr(x, y) > 0 <==> y < x < y + 0x8000_0000 || x < y - 0x8000_0000
  {
    SameComparator(x, y);
  }

  lemma SignsOfBoth(cmp: (Ptr, Ptr) -> int)
    requires cmp == CmpIntptr || cmp == CmpUintptr
    ensures SignsByDistance(cmp)
  {
    forall x: Ptr, y: Ptr | x < 0x1_0000_0000 && y < 0x1_0000_0000 {
      Signs(x, y);
    }
  }

  /** Four of the fifths of the circle. */
  function Fifths(val: Ptr): Keys4 {
    Keys4(0, 0x9999_9999, 0xcccc_cccd, 0x3333_3334, val)
  }

  lemma LeadsRound(cb: Callbacks, val: Ptr)
    requires SignsByDistance(cb.cmp) && cb.keyFree
    ensures Turns(cb, Fifths(val))
  {}

  /** Off the half circle the comparators can lead round in a circle, and then the tree loses
      keys: it forgets one that is stored, and drops one for good. */
  lemma SpreadKeysLost(cb: Callbacks, val: Ptr)
    requires (cb.cmp == CmpIntptr || cb.cmp == CmpUintptr) && cb.keyFree
    ensures var k := Fifths(val);
      && Get(cb, Exec(cb, Spread(k)).st, k.c) == NULL
      && Latest(Same(cb), Exec(cb, Spread(k)).events, k.c) == Some(k.val)
      && !Conserved(cb, SpreadOn(k))
  {
    SignsOfBoth(cb.cmp);
    LeadsRound(cb, val);
    LosesAKey(cb, Fifths(val));
    DropsAKey(cb, Fifths(val));
  }
}

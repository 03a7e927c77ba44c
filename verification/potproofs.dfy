/** The heap keeps its order over every run; it keeps its elements exactly when none comes before
    the first content of slot 0. */
module PotProofs {
  import opened Words
  import opened PotSpec

  /** The order, for three elements at hand. */
  lemma ThreeElements(before: Before, a: int, b: int, c: int)
    requires StrictWeak(before)
    ensures !before(a, a)
    ensures before(a, b) && before(b, c) ==> before(a, c)
    ensures !before(a, b) && !before(b, c) ==> !before(a, c)
    ensures before(a, b) ==> !before(b, a)
  {
    assert !before(a, a);
    assert before(a, b) && before(b, a) ==> before(a, a);
  }

  /** No element comes before its parent; slot 0 is the parent of the root. */
  ghost predicate HeapOrder(before: Before, s: seq<int>) {
    forall j | 1 <= j < |s| :: !before(s[j], s[j / 2])
  }

  /** The slots are permuted, never lost. */
  lemma SwapKeeps(s: seq<int>, i: nat, j: nat)
    requires i < |s| && j < |s|
    ensures multiset(Swap(s, i, j)) == multiset(s)
  {}

  lemma {:induction false} BubbleUpKeeps(before: Before, s: seq<int>, pos: nat)
    requires pos < |s|
    ensures multiset(BubbleUp(before, s, pos)) == multiset(s)
    decreases pos
  {
    if pos == 0 || !before(s[pos], s[pos / 2]) {
    } else {
      SwapKeeps(s, pos, pos / 2);
      BubbleUpKeeps(before, Swap(s, pos, pos / 2), pos / 2);
    }
  }

  lemma {:induction false} BubbleDownKeeps(before: Before, s: seq<int>, pos: nat)
    requires 1 <= pos && |s| >= 1
    ensures multiset(BubbleDown(before, s, pos)) == multiset(s)
    ensures BubbleDown(before, s, pos)[0] == s[0]
    decreases |s| - pos
  {
    if 2 * pos >= |s| {
    } else {
      var c := MinChild(before, s, pos);
      SwapKeeps(s, c, pos);
      BubbleDownKeeps(before, if before(s[c], s[pos]) then Swap(s, c, pos) else s, c);
    }
  }

  /** Contents, seen from all slots. */
  lemma SlotsAreZeroAndContents(s: seq<int>)
    requires |s| >= 1
    ensures multiset(s) == multiset{s[0]} + Contents(s)
  {
    assert s == [s[0]] + s[1..];
  }

  // ----- bubble_up -----

  /** Heap order but for `pos` and its parent. */
  ghost predicate OrderButUp(before: Before, s: seq<int>, pos: nat) {
    && (forall j | 1 <= j < |s| && j != pos :: !before(s[j], s[j / 2]))
    && (forall j | 1 <= j < |s| && j / 2 == pos && pos >= 1 :: !before(s[j], s[pos / 2]))
  }

  lemma BubbleUpStep(before: Before, s: seq<int>, pos: nat)
    requires StrictWeak(before) && 1 <= pos < |s| && OrderButUp(before, s, pos)
    requires before(s[pos], s[pos / 2])
    ensures OrderButUp(before, Swap(s, pos, pos / 2), pos / 2)
  {
    var p := pos / 2;
    var t := Swap(s, pos, p);
    forall j | 1 <= j < |t| && j != p
      ensures !before(t[j], t[j / 2])
    {
      ThreeElements(before, s[pos], s[p], s[pos]);
      ThreeElements(before, s[j], s[pos], s[p]);
      ThreeElements(before, s[j], s[j / 2], s[pos]);
    }
    forall j | 1 <= j < |t| && j / 2 == p && p >= 1
      ensures !before(t[j], t[p / 2])
    {
      ThreeElements(before, s[j], s[p], s[p / 2]);
    }
  }

  /** bubble_up restores the order from a violation at its start, slot 0 included. */
  lemma {:induction false} BubbleUpOrders(before: Before, s: seq<int>, pos: nat)
    requires StrictWeak(before) && pos < |s| && OrderButUp(before, s, pos)
    ensures HeapOrder(before, BubbleUp(before, s, pos))
    decreases pos
  {
    if pos == 0 || !before(s[pos], s[pos / 2]) {
    } else {
      BubbleUpStep(before, s, pos);
      BubbleUpOrders(before, Swap(s, pos, pos / 2), pos / 2);
    }
  }

  /** Slot 0 changes only when what rises comes before it. */
  lemma {:induction false} BubbleUpZero(before: Before, s: seq<int>, pos: nat)
    requires pos < |s|
    ensures var r := BubbleUp(before, s, pos); r[0] == s[0] || (r[0] == s[pos] && before(s[pos], s[0]))
    decreases pos
  {
    if pos == 0 || !before(s[pos], s[pos / 2]) {
    } else {
      BubbleUpZero(before, Swap(s, pos, pos / 2), pos / 2);
    }
  }

  /** In a heap nothing comes before the root, and nothing before slot 0. */
  lemma {:induction false} RootFirst(before: Before, s: seq<int>, p: nat)
    requires StrictWeak(before) && 1 <= p < |s| && HeapOrder(before, s)
    ensures !before(s[p], s[1]) && !before(s[p], s[0])
    decreases p
  {
    if p == 1 {
      ThreeElements(before, s[1], s[1], s[1]);
    } else {
      RootFirst(before, s, p / 2);
      ThreeElements(before, s[p], s[p / 2], s[1]);
      ThreeElements(before, s[p], s[p / 2], s[0]);
    }
  }

  lemma NotBeforeRoot(before: Before, s: seq<int>, y: int)
    requires StrictWeak(before) && |s| >= 1 && HeapOrder(before, s) && y in Contents(s)
    ensures |s| >= 2 && !before(y, s[1]) && !before(y, s[0])
  {
    var i :| 0 <= i < |s[1..]| && s[1..][i] == y;
    RootFirst(before, s, i + 1);
  }

  /** An insertion keeps the heap order, whatever slot 0 holds.  An element that comes before
      slot 0 takes its place and the content of slot 0 enters the heap instead. */
  lemma InsertExact(before: Before, s: seq<int>, x: int)
    requires StrictWeak(before) && |s| >= 1 && HeapOrder(before, s)
    ensures var r, ousts := Insert(before, s, x), before(x, s[0]);
      && HeapOrder(before, r)
      && r[0] == (if ousts then x else s[0])
      && Contents(r) == Contents(s) + multiset{if ousts then s[0] else x}
  {
    var r := Insert(before, s, x);
    BubbleUpOrders(before, s + [x], |s|);
    BubbleUpZero(before, s + [x], |s|);
    InsertSlots(before, s, x);
    if before(x, s[0]) {
      if r[0] != x {
        assert x in multiset{r[0]} + Contents(r);
        NotBeforeRoot(before, r, x);
      }
      Cancel(Contents(r), Contents(s) + multiset{s[0]}, x);
    } else {
      Cancel(Contents(r), Contents(s) + multiset{x}, s[0]);
    }
  }

  lemma InsertSlots(before: Before, s: seq<int>, x: int)
    requires |s| >= 1
    ensures var r := Insert(before, s, x);
      multiset{r[0]} + Contents(r) == multiset{s[0]} + (Contents(s) + multiset{x})
  {
    BubbleUpKeeps(before, s + [x], |s|);
    SlotsAreZeroAndContents(s);
    SlotsAreZeroAndContents(Insert(before, s, x));
    assert multiset(s + [x]) == multiset(s) + multiset{x};
  }

  lemma Cancel(a: multiset<int>, b: multiset<int>, x: int)
    requires multiset{x} + a == multiset{x} + b
    ensures a == b
  {
    assert (multiset{x} + a) - multiset{x} == a;
    assert (multiset{x} + b) - multiset{x} == b;
  }

  // ----- bubble_down -----

  /** Heap order but for `pos` and its children. */
  ghost predicate OrderButDown(before: Before, s: seq<int>, pos: nat) {
    && (forall j | 1 <= j < |s| && j / 2 != pos :: !before(s[j], s[j / 2]))
    && (forall j | 1 <= j < |s| && j / 2 == pos :: !before(s[j], s[pos / 2]))
  }

  /** One level: the violation moves to the child that comes first, or is gone. */
  lemma BubbleDownStep(before: Before, s: seq<int>, pos: nat)
    requires StrictWeak(before) && 1 <= pos && 2 * pos < |s| && OrderButDown(before, s, pos)
    ensures var c := MinChild(before, s, pos);
      OrderButDown(before, if before(s[c], s[pos]) then Swap(s, c, pos) else s, c)
  {
    var c := MinChild(before, s, pos);
    var t := if before(s[c], s[pos]) then Swap(s, c, pos) else s;
    ThreeElements(before, s[c], s[2 * pos], s[c]);
    forall j | 1 <= j < |s| && (j / 2 == pos || j / 2 == c)
      ensures !before(s[j], s[c])
      ensures !before(s[c], s[pos]) ==> !before(s[j], s[pos])
    {
      ThreeElements(before, s[c], s[c], s[c]);
      ThreeElements(before, s[j], s[c], s[pos]);
    }
    forall j | 1 <= j < |t| && j / 2 != c
      ensures !before(t[j], t[j / 2])
    {
      assert j / 2 != pos ==> !before(s[j], s[j / 2]);
      assert !before(s[c], s[pos / 2]);
      ThreeElements(before, s[c], s[pos], s[c]);
    }
  }

  /** bubble_down restores the order from a violation at its start, though it never stops
      early. */
  lemma {:induction false} BubbleDownOrders(before: Before, s: seq<int>, pos: nat)
    requires StrictWeak(before) && 1 <= pos && OrderButDown(before, s, pos)
    ensures HeapOrder(before, BubbleDown(before, s, pos))
    decreases |s| - pos
  {
    if 2 * pos >= |s| {
    } else {
      var c := MinChild(before, s, pos);
      BubbleDownStep(before, s, pos);
      BubbleDownOrders(before, if before(s[c], s[pos]) then Swap(s, c, pos) else s, c);
    }
  }

  /** The last element takes the place of the root. */
  lemma LastToRoot(s: seq<int>)
    requires |s| >= 2
    ensures Contents(s) == Contents(s[1 := s[|s| - 1]][..|s| - 1]) + multiset{s[1]}
  {
    var n := |s| - 1;
    var t := s[1 := s[n]][..n];
    if n >= 2 {
      assert s[1..] == [s[1]] + (s[2..n] + [s[n]]);
      assert t[1..] == [s[n]] + s[2..n];
    } else {
      assert s[1..] == [s[1]] && t[1..] == [];
    }
  }

  /** A removal takes out an element that none is before, and only that one; from an empty heap it
      takes nothing and returns 0. */
  lemma RemoveTopExact(before: Before, s: seq<int>)
    requires StrictWeak(before) && |s| >= 1 && HeapOrder(before, s)
    ensures var (r, x) := RemoveTop(before, s);
      if |s| == 1 then r == s && x == 0
      else
        && |r| == |s| - 1 && r[0] == s[0]
        && HeapOrder(before, r)
        && Contents(s) == Contents(r) + multiset{x}
        && forall y | y in Contents(s) :: !before(y, x)
  {
    if |s| >= 2 {
      RemoveTopFirst(before, s);
    }
  }

  lemma RemoveTopFirst(before: Before, s: seq<int>)
    requires StrictWeak(before) && |s| >= 2 && HeapOrder(before, s)
    ensures var (r, x) := RemoveTop(before, s);
      && |r| == |s| - 1 && r[0] == s[0]
      && HeapOrder(before, r)
      && Contents(s) == Contents(r) + multiset{x}
      && forall y | y in Contents(s) :: !before(y, x)
  {
    forall y | y in Contents(s) {
      NotBeforeRoot(before, s, y);
    }
    LastToRoot(s);
    var t := s[1 := s[|s| - 1]][..|s| - 1];
    forall j | 1 <= j < |s| {
      RootFirst(before, s, j);
    }
    assert OrderButDown(before, t, 1);
    BubbleDownOrders(before, t, 1);
    SameContents(before, t);
  }

  lemma SameContents(before: Before, t: seq<int>)
    requires |t| >= 1
    ensures BubbleDown(before, t, 1)[0] == t[0]
    ensures Contents(BubbleDown(before, t, 1)) == Contents(t)
  {
    BubbleDownKeeps(before, t, 1);
    SlotsAreZeroAndContents(BubbleDown(before, t, 1));
    SlotsAreZeroAndContents(t);
    Cancel(Contents(BubbleDown(before, t, 1)), Contents(t), t[0]);
  }

  // ----- Equivalent elements -----

  /** What comes above `pos` is not touched. */
  lemma {:induction false} BubbleDownAbove(before: Before, s: seq<int>, pos: nat, j: nat)
    requires 1 <= pos && j < pos && j < |s|
    ensures BubbleDown(before, s, pos)[j] == s[j]
    decreases |s| - pos
  {
    if 2 * pos >= |s| {
    } else {
      var c := MinChild(before, s, pos);
      BubbleDownAbove(before, if before(s[c], s[pos]) then Swap(s, c, pos) else s, c, j);
    }
  }

  /** Equivalent elements do not overtake each other: an element inserted stays last unless it
      comes before its parent, and of the children of the root the right one takes its place only
      if it comes before the left one, either only if it comes before the last element. */
  lemma TiesStay(before: Before, s: seq<int>, x: int)
    requires |s| >= 1
    ensures !before(x, s[|s| / 2]) ==> Insert(before, s, x) == s + [x]
    ensures |s| >= 5 ==>
      var first := if before(s[3], s[2]) then s[3] else s[2];
      RemoveTop(before, s).0[1] == if before(first, s[|s| - 1]) then first else s[|s| - 1]
  {
    if !before(x, s[|s| / 2]) {
      NoRise(before, s + [x], |s|);
    }
    if |s| >= 5 {
      var n := |s| - 1;
      var t := s[1 := s[n]][..n];
      var c := MinChild(before, t, 1);
      BubbleDownAbove(before, if before(t[c], t[1]) then Swap(t, c, 1) else t, c, 1);
    }
  }

  lemma NoRise(before: Before, s: seq<int>, pos: nat)
    requires pos < |s| && !before(s[pos], s[pos / 2])
    ensures BubbleUp(before, s, pos) == s
  {}

  // ----- Runs -----

  lemma StepOrders(before: Before, r: Run, op: Op)
    requires StrictWeak(before) && |r.slots| >= 1 && HeapOrder(before, r.slots)
    ensures var s, s' := r.slots, Step(before, r, op).slots;
      && |s'| >= 1 && HeapOrder(before, s')
      && s'[0] == if op.OpInsert? && before(op.x, s[0]) then op.x else s[0]
  {
    if op.OpInsert? {
      InsertExact(before, r.slots, op.x);
    } else if |r.slots| >= 2 {
      RemoveTopExact(before, r.slots);
    }
  }

  lemma {:induction false} AlwaysOrdered(before: Before, zero: int, script: seq<Op>)
    requires StrictWeak(before)
    ensures HeapOrder(before, Exec(before, zero, script).slots)
  {
    if script == [] {
    } else {
      var rest := script[..|script| - 1];
      AlwaysOrdered(before, zero, rest);
      StepOrders(before, Exec(before, zero, rest), script[|script| - 1]);
    }
  }

  /** The heap order holds over every interleaving of insertions and removals, whatever slot 0
      holds at the beginning; nothing in the heap comes before the root or before slot 0. */
  lemma HeapInvariant(before: Before, zero: int, script: seq<Op>)
    requires StrictWeak(before)
    ensures var s := Exec(before, zero, script).slots;
      && HeapOrder(before, s)
      && forall y | y in Contents(s) :: |s| >= 2 && !before(y, s[1]) && !before(y, s[0])
  {
    AlwaysOrdered(before, zero, script);
    var s := Exec(before, zero, script).slots;
    forall y | y in Contents(s) {
      NotBeforeRoot(before, s, y);
    }
  }

  /** Everything that slot 0 held at the beginning or that was inserted. */
  function Given(zero: int, r: Run): multiset<int> {
    multiset{zero} + r.inserted
  }

  lemma RemoveConserves(before: Before, s: seq<int>)
    requires |s| >= 2
    ensures var (r, x) := RemoveTop(before, s);
      |r| >= 1 && r[0] == s[0] && Contents(s) == Contents(r) + multiset{x}
  {
    LastToRoot(s);
    SameContents(before, s[1 := s[|s| - 1]][..|s| - 1]);
  }

  lemma StepConserves(before: Before, zero: int, r: Run, op: Op)
    requires |r.slots| >= 1
    requires multiset{r.slots[0]} + Contents(r.slots) + multiset(r.removed) == Given(zero, r)
    ensures var r' := Step(before, r, op);
      |r'.slots| >= 1 && multiset{r'.slots[0]} + Contents(r'.slots) + multiset(r'.removed) == Given(zero, r')
  {
    if op.OpInsert? {
      InsertSlots(before, r.slots, op.x);
    } else if |r.slots| >= 2 {
      RemoveConserves(before, r.slots);
      var x := RemoveTop(before, r.slots).1;
      assert multiset(r.removed + [x]) == multiset(r.removed) + multiset{x};
    }
  }

  /** Slot 0, the heap and what was removed are what was given, for any `before` at all. */
  lemma {:induction false} SlotsConserved(before: Before, zero: int, script: seq<Op>)
    ensures var r := Exec(before, zero, script);
      multiset{r.slots[0]} + Contents(r.slots) + multiset(r.removed) == Given(zero, r)
  {
    if script == [] {
    } else {
      var rest := script[..|script| - 1];
      SlotsConserved(before, zero, rest);
      StepConserves(before, zero, Exec(before, zero, rest), script[|script| - 1]);
    }
  }

  /** Slot 0 always holds one of the elements given that none of them is before. */
  lemma {:induction false} SlotZeroIsFirst(before: Before, zero: int, script: seq<Op>)
    requires StrictWeak(before)
    ensures var r := Exec(before, zero, script);
      r.slots[0] in Given(zero, r) && forall y | y in Given(zero, r) :: !before(y, r.slots[0])
  {
    var r := Exec(before, zero, script);
    SlotsConserved(before, zero, script);
    assert r.slots[0] in multiset{r.slots[0]} + Contents(r.slots) + multiset(r.removed);
    ThreeElements(before, zero, zero, zero);
    if script == [] {
    } else {
      var rest, op := script[..|script| - 1], script[|script| - 1];
      var q := Exec(before, zero, rest);
      SlotZeroIsFirst(before, zero, rest);
      HeapInvariant(before, zero, rest);
      StepOrders(before, q, op);
      forall y | y in Given(zero, r)
        ensures !before(y, r.slots[0])
      {
        ThreeElements(before, y, r.slots[0], q.slots[0]);
        ThreeElements(before, r.slots[0], r.slots[0], r.slots[0]);
        assert y in Given(zero, q) || y == op.x;
      }
    }
  }

  /** No element inserted comes before what slot 0 holds at the beginning. */
  predicate Allowed(before: Before, zero: int, script: seq<Op>) {
    forall op | op in script && op.OpInsert? :: !before(op.x, zero)
  }

  /** No insertion ousts the content of slot 0. */
  predicate NeverOusts(before: Before, zero: int, script: seq<Op>) {
    script != [] ==>
      var rest, op := script[..|script| - 1], script[|script| - 1];
      && NeverOusts(before, zero, rest)
      && (op.OpInsert? ==> !before(op.x, Exec(before, zero, rest).slots[0]))
  }

  /** Once ousted, what slot 0 held at the beginning never comes back to it. */
  lemma {:induction false} SlotZeroStays(before: Before, zero: int, script: seq<Op>)
    requires StrictWeak(before)
    ensures var z := Exec(before, zero, script).slots[0];
      && (z == zero || before(z, zero))
      && (z == zero <==> Allowed(before, zero, script))
      && (z == zero <==> NeverOusts(before, zero, script))
  {
    ThreeElements(before, zero, zero, zero);
    if script == [] {
    } else {
      var rest, op := script[..|script| - 1], script[|script| - 1];
      var s := Exec(before, zero, rest).slots;
      assert script == rest + [op];
      SlotZeroStays(before, zero, rest);
      HeapInvariant(before, zero, rest);
      StepOrders(before, Exec(before, zero, rest), op);
      if op.OpInsert? {
        ThreeElements(before, op.x, s[0], zero);
      }
    }
  }

  /** The heap contains what was inserted and not yet removed. */
  ghost predicate Balanced(r: Run)
    requires |r.slots| >= 1
  {
    Contents(r.slots) + multiset(r.removed) == r.inserted
  }

  /** Over any interleaving the contents balance in the end exactly when no element inserted
      comes before what slot 0 held at the beginning, and exactly when none ousted it. */
  lemma RunExact(before: Before, zero: int, script: seq<Op>)
    requires StrictWeak(before)
    ensures Balanced(Exec(before, zero, script)) <==> Allowed(before, zero, script)
    ensures NeverOusts(before, zero, script) <==> Allowed(before, zero, script)
  {
    var r := Exec(before, zero, script);
    SlotsConserved(before, zero, script);
    SlotZeroStays(before, zero, script);
    SameOnes(r.slots[0], Contents(r.slots) + multiset(r.removed), zero, r.inserted);
  }

  lemma SameOnes(x: int, a: multiset<int>, y: int, b: multiset<int>)
    requires multiset{x} + a == multiset{y} + b
    ensures x == y <==> a == b
  {
    if x == y {
      Cancel(a, b, x);
    } else {
      assert (multiset{x} + a)[x] == (multiset{y} + b)[x];
    }
  }

  ghost predicate SortedBy(before: Before, s: seq<int>) {
    forall i, j | 0 <= i < j < |s| :: !before(s[j], s[i])
  }

  /** Draining a heap yields its elements in order. */
  lemma {:induction false} DrainSorts(before: Before, s: seq<int>)
    requires StrictWeak(before) && |s| >= 1 && HeapOrder(before, s)
    ensures multiset(Drain(before, s)) == Contents(s)
    ensures SortedBy(before, Drain(before, s))
    decreases |s|
  {
    if |s| == 1 {
    } else {
      RemoveTopExact(before, s);
      var r := RemoveTop(before, s).0;
      DrainSorts(before, r);
      var d := Drain(before, r);
      assert Drain(before, s) == [s[1]] + d;
      forall y | y in d
        ensures !before(y, s[1])
      {
        assert y in multiset(d);
        NotBeforeRoot(before, s, y);
      }
      FirstThenSorted(before, s[1], d);
    }
  }

  lemma FirstThenSorted(before: Before, x: int, d: seq<int>)
    requires SortedBy(before, d) && forall y | y in d :: !before(y, x)
    ensures SortedBy(before, [x] + d)
  {
    var s := [x] + d;
    forall i, j | 0 <= i < j < |s|
      ensures !before(s[j], s[i])
    {
      assert s[j] == d[j - 1] && d[j - 1] in d;
      if i > 0 {
        assert s[i] == d[i - 1];
      }
    }
  }

  /** The whole heap as a sorting procedure: what comes out is always in order, and it is what
      went in exactly when nothing of it comes before slot 0. */
  lemma HeapSorts(before: Before, zero: int, xs: seq<int>)
    requires StrictWeak(before)
    ensures var s := InsertAll(before, [zero], xs);
      var d := Drain(before, s);
      && SortedBy(before, d)
      && multiset{s[0]} + multiset(d) == multiset{zero} + multiset(xs)
      && (multiset(d) == multiset(xs) <==> forall x | x in xs :: !before(x, zero))
  {
    var s := InsertAll(before, [zero], xs);
    InsertAllExact(before, [zero], xs);
    DrainSorts(before, s);
    SameOnes(s[0], Contents(s), zero, multiset(xs));
  }

  lemma {:induction false} InsertAllExact(before: Before, s: seq<int>, xs: seq<int>)
    requires StrictWeak(before) && |s| >= 1 && HeapOrder(before, s)
    ensures var r := InsertAll(before, s, xs);
      && HeapOrder(before, r)
      && multiset{r[0]} + Contents(r) == multiset{s[0]} + (Contents(s) + multiset(xs))
      && (r[0] == s[0] || before(r[0], s[0]))
      && (r[0] == s[0] <==> forall x | x in xs :: !before(x, s[0]))
    decreases |xs|
  {
    if xs == [] {
    } else {
      var t := Insert(before, s, xs[0]);
      assert xs == [xs[0]] + xs[1..];
      InsertExact(before, s, xs[0]);
      InsertAllExact(before, t, xs[1..]);
      ThreeElements(before, InsertAll(before, s, xs)[0], t[0], s[0]);
      forall x | x in xs {
        ThreeElements(before, x, t[0], s[0]);
      }
    }
  }

  // ----- Growth -----

  ghost predicate IsPow2(n: nat) {
    exists k: nat :: n == Pow2(k)
  }

  /** Doubling keeps powers of two. */
  lemma {:induction false} DoubledPow2(size: nat, want: nat)
    requires size > 0 && IsPow2(size)
    ensures IsPow2(Doubled(size, want))
    decreases if size < want then want - size else 0
  {
    if size >= want {
    } else {
      var k: nat :| size == Pow2(k);
      assert 2 * size == Pow2(k + 1);
      DoubledPow2(2 * size, want);
    }
  }

  /** In 64 bits the loop, started at a power of two, reaches a request exactly when the
      request is at most 2^63: beyond, the size doubles to 0 and stays there. */
  lemma DoublingTerminates(j: nat, want: nat)
    requires j < 64
    ensures (exists k: nat :: Doublings(Pow2(j), k) >= want) <==> want <= 0x8000_0000_0000_0000
  {
    PowersOfTwo();
    if want <= 0x8000_0000_0000_0000 {
      DoublingsArePowers(j, 63 - j);
      assert Doublings(Pow2(j), 63 - j) >= want;
    } else {
      forall k: nat
        ensures Doublings(Pow2(j), k) <= 0x8000_0000_0000_0000
      {
        DoublingsArePowers(j, k);
        if j + k < 64 {
          Pow2Grows(j + k, 63);
        }
      }
    }
  }

  /** The bytes of the array, a slot 0 included, fit a `size_t` exactly for capacities and
      requests up to 2^60: beyond, `sizeof(intptr_t) * (size + 1)` wraps before the loop does. */
  lemma BytesFit(j: nat, want: nat)
    ensures 8 * (Doubled(Pow2(j), want) + 1) < 0x1_0000_0000_0000_0000 <==>
      Pow2(j) <= 0x1000_0000_0000_0000 && want <= 0x1000_0000_0000_0000
  {
    PowersOfTwo();
    if j > 60 {
      Pow2Grows(61, j);
    } else if want <= Pow2(60) {
      Pow2Grows(j, 60);
      DoubledStops(j, 60, want);
    } else {
      DoubledPow2(Pow2(j), want);
      var k: nat :| Doubled(Pow2(j), want) == Pow2(k);
      if k <= 60 {
        Pow2Grows(k, 60);
      } else {
        Pow2Grows(61, k);
      }
    }
  }

  /** Doubling stops at or below the first power of two that is enough. */
  lemma {:induction false} DoubledStops(j: nat, k: nat, want: nat)
    requires j <= k && want <= Pow2(k)
    ensures Doubled(Pow2(j), want) <= Pow2(k)
    decreases k - j
  {
    if Pow2(j) >= want {
      Pow2Grows(j, k);
    } else {
      assert j < k;
      DoubledStops(j + 1, k, want);
    }
  }

  lemma {:induction false} DoublingsArePowers(j: nat, k: nat)
    requires j < 64
    ensures Doublings(Pow2(j), k) == if j + k < 64 then Pow2(j + k) else 0
    decreases k
  {
    if k > 0 {
      DoublingsArePowers(j, k - 1);
      WordDoubles(j + k - 1);
    } else {
      WordDoubles(j);
    }
  }

  /** Doubling a 64-bit power of two. */
  lemma WordDoubles(n: nat)
    ensures n < 64 ==> Pow2(n) < 0x1_0000_0000_0000_0000
    ensures n < 63 ==> 2 * Pow2(n) % 0x1_0000_0000_0000_0000 == Pow2(n + 1)
    ensures n == 63 ==> 2 * Pow2(n) % 0x1_0000_0000_0000_0000 == 0
  {
    PowersOfTwo();
    if n < 63 {
      Pow2Grows(n + 1, 63);
    }
  }
}

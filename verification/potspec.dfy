/** The binary heap of a/pot.c on values: the slots 0..num of its array.  Slot 0 belongs to no
    element; it holds whatever the allocation left there, and bubble_up compares with it. */
module PotSpec {

  type Before = (int, int) -> bool

  /** A strict weak order: what a_pot_before_t must be. */
  ghost predicate StrictWeak(before: Before) {
    && (forall a :: !before(a, a))
    && (forall a, b, c :: before(a, b) && before(b, c) ==> before(a, c))
    && (forall a, b, c :: !before(a, b) && !before(b, c) ==> !before(a, c))
  }

  // ----- Operations -----

  function Swap(s: seq<int>, i: nat, j: nat): seq<int>
    requires i < |s| && j < |s|
  {
    s[i := s[j]][j := s[i]]
  }

  /** bubble_up from position `pos`; position 1 is compared with slot 0. */
  function BubbleUp(before: Before, s: seq<int>, pos: nat): (r: seq<int>)
    requires pos < |s|
    ensures |r| == |s|
    decreases pos
  {
    if pos == 0 || !before(s[pos], s[pos / 2]) then s
    else BubbleUp(before, Swap(s, pos, pos / 2), pos / 2)
  }

  /** The child of `pos` that comes first. */
  function MinChild(before: Before, s: seq<int>, pos: nat): (c: nat)
    requires 1 <= pos && 2 * pos < |s|
    ensures c / 2 == pos && pos < c < |s|
  {
    if 2 * pos + 1 < |s| && before(s[2 * pos + 1], s[2 * pos]) then 2 * pos + 1 else 2 * pos
  }

  /** bubble_down from position `pos`: it goes on to a leaf whether it swaps or not. */
  function BubbleDown(before: Before, s: seq<int>, pos: nat): (r: seq<int>)
    requires 1 <= pos
    ensures |r| == |s|
    decreases |s| - pos
  {
    if 2 * pos >= |s| then s
    else
      var c := MinChild(before, s, pos);
      BubbleDown(before, if before(s[c], s[pos]) then Swap(s, c, pos) else s, c)
  }

  /** a_pot_insert */
  function Insert(before: Before, s: seq<int>, x: int): seq<int>
    requires |s| >= 1
  {
    BubbleUp(before, s + [x], |s|)
  }

  /** a_pot_remove_top: the slots left and the element returned, 0 from an empty heap. */
  function RemoveTop(before: Before, s: seq<int>): (seq<int>, int)
    requires |s| >= 1
  {
    if |s| == 1 then (s, 0)
    else
      var n := |s| - 1;
      (BubbleDown(before, s[1 := s[n]][..n], 1), s[1])
  }

  /** The elements of the heap. */
  function Contents(s: seq<int>): multiset<int>
    requires |s| >= 1
  {
    multiset(s[1..])
  }

  // ----- Runs -----

  datatype Op = OpInsert(x: int) | OpRemoveTop

  datatype Run = Run(slots: seq<int>, inserted: multiset<int>, removed: seq<int>)

  function Step(before: Before, r: Run, op: Op): Run
    requires |r.slots| >= 1
  {
    match op
    case OpInsert(x) => r.(slots := Insert(before, r.slots, x), inserted := r.inserted + multiset{x})
    case OpRemoveTop =>
      var (s, x) := RemoveTop(before, r.slots);
      r.(slots := s, removed := r.removed + (if |r.slots| == 1 then [] else [x]))
  }

  /** A run from an empty heap whose slot 0 holds `zero`. */
  function Exec(before: Before, zero: int, script: seq<Op>): (r: Run)
    ensures |r.slots| >= 1
  {
    if script == [] then Run([zero], multiset{}, [])
    else Step(before, Exec(before, zero, script[..|script| - 1]), script[|script| - 1])
  }

  /** Everything the heap gives back when it is emptied. */
  function Drain(before: Before, s: seq<int>): seq<int>
    requires |s| >= 1
    decreases |s|
  {
    if |s| == 1 then []
    else [s[1]] + Drain(before, RemoveTop(before, s).0)
  }

  function InsertAll(before: Before, s: seq<int>, xs: seq<int>): (r: seq<int>)
    requires |s| >= 1
    ensures |r| >= 1
    decreases |xs|
  {
    if xs == [] then s else InsertAll(before, Insert(before, s, xs[0]), xs[1..])
  }

  // ----- Growth -----

  /** The doubling loop of a_pot_resize, in unbounded arithmetic. */
  function Doubled(size: nat, want: nat): (r: nat)
    requires size > 0
    ensures r >= want && r >= size
    ensures size < want ==> r < 2 * want
    ensures size >= want ==> r == size
    decreases if size < want then want - size else 0
  {
    if size < want then Doubled(2 * size, want) else size
  }

  /** The size after `k` rounds of the loop in 64 bits. */
  function Doublings(size: nat, k: nat): nat {
    if k == 0 then size else 2 * Doublings(size, k - 1) % 0x1_0000_0000_0000_0000
  }

  function Max(a: nat, b: nat): nat { if a > b then a else b }
}

/** The heap of a/pot.c in its own form: an array, changed in place and moved when it grows. */
module Pot {
  import opened Words
  import PotSpec
  import PotProofs

  /** Exactly the requests up to 2^60 get the bytes they need (PotProofs.BytesFit). */
  const MAX_SIZE: nat := 0x1000_0000_0000_0000

  class Heap {
    const before: PotSpec.Before
    var num: nat
    var alloced: nat
    var data: array<int>  // the source's `array`: slot 0 and `alloced` slots for elements

    ghost predicate Shaped()
      reads this
    {
      && num <= alloced && 0 < alloced
      && data.Length == alloced + 1
      && PotProofs.IsPow2(alloced)
      && 8 * (alloced + 1) < 0x1_0000_0000_0000_0000
    }

    /** No element comes before its parent, nor the root before slot 0, if `before` is an order
        at all. */
    ghost predicate Valid()
      reads this, data
    {
      Shaped() && (PotSpec.StrictWeak(before) ==> PotProofs.HeapOrder(before, Slots()))
    }

    /** The slots 0..num. */
    ghost function Slots(): seq<int>
      requires Shaped()
      reads this, data
    {
      data[..num + 1]
    }

    /** a_pot_init with a successful allocation: slot 0 holds anything. */
    constructor (before: PotSpec.Before, size: nat)
      requires size <= MAX_SIZE
      ensures Valid() && fresh(data) && this.before == before
      ensures num == 0 && size <= alloced
    {
      this.before := before;
      num := 0;
      alloced := 0;
      data := new int[0];
      new;
      Grow(size);
    }

    /** The doubling loop and the reallocation. */
    method Grow(newSize: nat)
      requires newSize <= MAX_SIZE
      requires if alloced == 0 then num == 0 else Shaped()
      modifies this`alloced, this`data
      ensures Shaped() && fresh(data)
      ensures alloced == PotSpec.Doubled(if old(alloced) > 0 then old(alloced) else 1, PotSpec.Max(newSize, num))
      ensures old(alloced) > 0 ==> Slots() == old(data[..num + 1])
    {
      var want := newSize;
      if want < num {
        want := num;
      }
      var size := if alloced > 0 then alloced else 1;
      ghost var start := size;
      assert 1 == Pow2(0);
      PotProofs.DoubledPow2(start, want);
      Fits(start, want);
      while size < want
        invariant size > 0
        invariant PotSpec.Doubled(size, want) == PotSpec.Doubled(start, want)
        decreases want - size
      {
        size := size * 2;
      }
      Realloc(size);
    }

    static lemma Fits(size: nat, want: nat)
      requires size > 0 && PotProofs.IsPow2(size) && 8 * (size + 1) < 0x1_0000_0000_0000_0000
      requires want <= MAX_SIZE || want <= size
      ensures 8 * (PotSpec.Doubled(size, want) + 1) < 0x1_0000_0000_0000_0000
    {
      var j: nat :| size == Pow2(j);
      PotProofs.BytesFit(j, 0);
      PotProofs.BytesFit(j, want);
    }

    /** realloc: a new array that starts with the old one; the rest is arbitrary. */
    method Realloc(size: nat)
      requires alloced > 0 ==> alloced <= size && num <= alloced && data.Length == alloced + 1
      modifies this`alloced, this`data
      ensures fresh(data) && alloced == size && data.Length == size + 1
      ensures old(alloced) > 0 ==> data[..num + 1] == old(data[..num + 1])
    {
      var moved := new int[size + 1];
      if alloced > 0 {
        forall k | 0 <= k <= alloced {
          moved[k] := data[k];
        }
      }
      data := moved;
      alloced := size;
    }

    /** a_pot_resize: nothing below the present capacity, else a capacity that is a power of
        two, at least the request, and less than twice what is needed if it had to double. */
    method Resize(newSize: nat)
      requires Valid() && newSize <= MAX_SIZE
      modifies this`alloced, this`data
      ensures Valid() && (data == old(data) || fresh(data))
      ensures Slots() == old(Slots())
      ensures alloced >= newSize && alloced >= num && alloced >= old(alloced)
      ensures newSize < old(alloced) ==> data == old(data) && alloced == old(alloced)
      ensures newSize > old(alloced) ==> alloced < 2 * PotSpec.Max(newSize, num)
    {
      if newSize < alloced {
        return;
      }
      Grow(newSize);
    }

    method SwapSlots(i: nat, j: nat)
      requires Shaped() && i <= num && j <= num
      modifies data
      ensures Shaped()
      ensures Slots() == PotSpec.Swap(old(Slots()), i, j)
    {
      data[i], data[j] := data[j], data[i];
    }

    method BubbleUp()
      requires Shaped()
      modifies data
      ensures Shaped()
      ensures Slots() == PotSpec.BubbleUp(before, old(Slots()), num)
    {
      var pos: nat := num;
      while pos != 0
        invariant pos <= num
        invariant PotSpec.BubbleUp(before, Slots(), pos) == PotSpec.BubbleUp(before, old(Slots()), num)
        decreases pos
      {
        assert Slots()[pos] == data[pos] && Slots()[pos / 2] == data[pos / 2];
        if !before(data[pos], data[pos / 2]) {
          return;
        }
        SwapSlots(pos, pos / 2);
        pos := pos / 2;
      }
    }

    /** Its inner loop leaves only by returning, so the outer one runs at most once. */
    method BubbleDown()
      requires Shaped()
      modifies data
      ensures Shaped()
      ensures Slots() == PotSpec.BubbleDown(before, old(Slots()), 1)
    {
      var pos := 1;
      if pos > num / 2 {
        return;
      }
      while true
        invariant 1 <= pos <= num
        invariant PotSpec.BubbleDown(before, Slots(), pos) == PotSpec.BubbleDown(before, old(Slots()), 1)
        decreases num - pos
      {
        var minChild := pos * 2;
        if minChild > num {
          return;
        }
        assert forall k | 0 <= k <= num :: Slots()[k] == data[k];
        if minChild + 1 <= num && before(data[minChild + 1], data[minChild]) {
          minChild := minChild + 1;
        }
        assert minChild == PotSpec.MinChild(before, Slots(), pos);
        if before(data[minChild], data[pos]) {
          SwapSlots(minChild, pos);
        }
        pos := minChild;
      }
    }

    /** a_pot_insert */
    method Insert(x: int)
      requires Valid() && num < MAX_SIZE
      modifies this, data
      ensures Valid() && (data == old(data) || fresh(data))
      ensures Slots() == PotSpec.Insert(before, old(Slots()), x)
    {
      ghost var was := Slots();
      Resize(num + 1);
      num := num + 1;
      data[num] := x;
      assert Slots() == was + [x];
      BubbleUp();
      if PotSpec.StrictWeak(before) {
        PotProofs.InsertExact(before, was, x);
      }
    }

    /** a_pot_remove_top */
    method RemoveTop() returns (ret: int)
      requires Valid()
      modifies this`num, data
      ensures Valid() && data == old(data)
      ensures Slots() == PotSpec.RemoveTop(before, old(Slots())).0
      ensures ret == PotSpec.RemoveTop(before, old(Slots())).1
      ensures old(num) == 0 ==> ret == 0 && num == 0 && Slots() == old(Slots())
      ensures PotSpec.StrictWeak(before) && old(num) > 0 ==>
        forall y | y in old(PotSpec.Contents(Slots())) :: !before(y, ret)
    {
      if num == 0 {
        return 0;
      }
      ghost var was := Slots();
      ret := data[1];
      data[1] := data[num];
      num := num - 1;
      assert Slots() == was[1 := was[num + 1]][..num + 1];
      BubbleDown();
      if PotSpec.StrictWeak(before) {
        PotProofs.RemoveTopExact(before, was);
      }
    }
  }
}

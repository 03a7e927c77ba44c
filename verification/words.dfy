/** Unsigned machine words as non-negative integers, with their shifts, masks and
    exclusive or given bit by bit. */
module Words {

  /** 2^32, the modulus of `uint32_t` and `unsigned int`. */
  const WORD := 0x1_0000_0000

  function Pow2(n: nat): (r: nat)
    ensures r >= 1
  {
    if n == 0 then 1 else 2 * Pow2(n - 1)
  }

  lemma PowersOfTwo()
    ensures Pow2(30) == 0x4000_0000 && Pow2(32) == WORD
    ensures Pow2(60) == 0x1000_0000_0000_0000 && Pow2(63) == 0x8000_0000_0000_0000
  {
    assert Pow2(10) == 0x400;
    assert Pow2(20) == 0x10_0000;
    assert Pow2(30) == 0x4000_0000;
    assert Pow2(40) == 0x100_0000_0000;
    assert Pow2(50) == 0x4_0000_0000_0000;
    assert Pow2(60) == 0x1000_0000_0000_0000;
  }

  /** `x >> k` */
  function Shr(x: nat, k: nat): nat
    decreases k
  {
    if k == 0 then x else Shr(x / 2, k - 1)
  }

  /** `x & ((1 << k) - 1)` */
  function Low(x: nat, k: nat): nat
    decreases k
  {
    if k == 0 then 0 else 2 * Low(x / 2, k - 1) + x % 2
  }

  /** `x ^ y` */
  function Xor(x: nat, y: nat): nat
    decreases x + y
  {
    if x == 0 then y
    else if y == 0 then x
    else 2 * Xor(x / 2, y / 2) + (if x % 2 == y % 2 then 0 else 1)
  }

  // ----- Shifts and masks -----

  /** The shift is the quotient and the mask the remainder by a power of two. */
  lemma {:induction false} DigitsMeaning(x: nat, k: nat)
    ensures x == Pow2(k) * Shr(x, k) + Low(x, k)
    ensures Low(x, k) < Pow2(k)
    decreases k
  {
    if k == 0 {
    } else {
      DigitsMeaning(x / 2, k - 1);
      OneDigitMore(x, Pow2(k - 1), Shr(x / 2, k - 1), Low(x / 2, k - 1));
    }
  }

  lemma OneDigitMore(x: nat, p: nat, q: nat, l: nat)
    requires x / 2 == p * q + l
    ensures x == (2 * p) * q + (2 * l + x % 2)
  {
    assert (2 * p) * q == 2 * (p * q);
  }

  /** Shifting right twice adds the distances. */
  lemma {:induction false} ShiftTwice(x: nat, j: nat, k: nat)
    ensures Shr(Shr(x, j), k) == Shr(x, j + k)
    decreases j
  {
    if j == 0 {
    } else {
      ShiftTwice(x / 2, j - 1, k);
    }
  }

  lemma {:induction false} ShiftFalls(x: nat, k: nat)
    ensures Shr(x, k) <= x
    ensures x > 0 && k > 0 ==> Shr(x, k) < x
    decreases k
  {
    if k == 0 {
    } else {
      ShiftFalls(x / 2, k - 1);
    }
  }

  lemma {:induction false} Pow2Grows(i: nat, j: nat)
    requires i <= j
    ensures Pow2(i) <= Pow2(j)
    decreases j
  {
    if i == j {
    } else {
      Pow2Grows(i, j - 1);
    }
  }

  /** Everything is shifted out of a word by its width. */
  lemma {:induction false} ShiftedOut(x: nat, k: nat)
    requires x < Pow2(k)
    ensures Shr(x, k) == 0 && Low(x, k) == x
    decreases k
  {
    if k == 0 {
    } else {
      ShiftedOut(x / 2, k - 1);
    }
  }

  // ----- Exclusive or -----

  /** The defining equation holds without its special cases. */
  lemma XorUnfold(x: nat, y: nat)
    ensures Xor(x, y) == 2 * Xor(x / 2, y / 2) + (if x % 2 == y % 2 then 0 else 1)
    ensures Xor(x, y) / 2 == Xor(x / 2, y / 2)
    ensures Xor(x, y) % 2 == (if x % 2 == y % 2 then 0 else 1)
  {}

  lemma {:induction false} XorSelf(x: nat)
    ensures Xor(x, x) == 0
  {
    if x == 0 {
    } else {
      XorSelf(x / 2);
    }
  }

  lemma {:induction false} XorCommutative(x: nat, y: nat)
    ensures Xor(x, y) == Xor(y, x)
    decreases x + y
  {
    if x == 0 || y == 0 {
    } else {
      XorCommutative(x / 2, y / 2);
    }
  }

  lemma {:induction false} XorAssociative(x: nat, y: nat, z: nat)
    ensures Xor(Xor(x, y), z) == Xor(x, Xor(y, z))
    decreases x + y + z
  {
    if x == 0 || y == 0 || z == 0 {
    } else {
      XorUnfold(x, y);
      XorUnfold(y, z);
      XorUnfold(Xor(x, y), z);
      XorUnfold(x, Xor(y, z));
      XorAssociative(x / 2, y / 2, z / 2);
    }
  }

  lemma XorInterchange(a: nat, b: nat, c: nat, d: nat)
    ensures Xor(Xor(a, b), Xor(c, d)) == Xor(Xor(a, c), Xor(b, d))
  {
    XorAssociative(a, b, Xor(c, d));
    XorAssociative(b, c, d);
    XorCommutative(b, c);
    XorAssociative(c, b, d);
    XorAssociative(a, c, Xor(b, d));
  }

  lemma {:induction false} XorBelow(x: nat, y: nat, bits: nat)
    requires x < Pow2(bits) && y < Pow2(bits)
    ensures Xor(x, y) < Pow2(bits)
    decreases bits
  {
    if bits == 0 {
    } else {
      XorUnfold(x, y);
      XorBelow(x / 2, y / 2, bits - 1);
    }
  }

  /** Exclusive or acts on the high digits and on the low digits separately. */
  lemma XorDigits(x: nat, y: nat, k: nat)
    ensures Shr(Xor(x, y), k) == Xor(Shr(x, k), Shr(y, k))
    ensures Low(Xor(x, y), k) == Xor(Low(x, k), Low(y, k))
  {
    XorHighDigits(x, y, k);
    XorLowDigits(x, y, k);
  }

  lemma {:induction false} XorHighDigits(x: nat, y: nat, k: nat)
    ensures Shr(Xor(x, y), k) == Xor(Shr(x, k), Shr(y, k))
    decreases k
  {
    if k == 0 {
    } else {
      XorUnfold(x, y);
      XorHighDigits(x / 2, y / 2, k - 1);
    }
  }

  lemma {:induction false} XorLowDigits(x: nat, y: nat, k: nat)
    ensures Low(Xor(x, y), k) == Xor(Low(x, k), Low(y, k))
    decreases k
  {
    if k == 0 {
    } else {
      var l, m := Low(x, k), Low(y, k);
      assert l / 2 == Low(x / 2, k - 1) && l % 2 == x % 2;
      assert m / 2 == Low(y / 2, k - 1) && m % 2 == y % 2;
      XorUnfold(x, y);
      XorUnfold(l, m);
      XorLowDigits(x / 2, y / 2, k - 1);
    }
  }

  /** The digits of a number put together of high and low ones. */
  lemma {:induction false} DigitsOf(x: nat, a: nat, k: nat)
    requires a < Pow2(k)
    ensures Shr(Pow2(k) * x + a, k) == x && Low(Pow2(k) * x + a, k) == a
    decreases k
  {
    if k == 0 {
    } else {
      var p := Pow2(k - 1);
      DigitsOf(x, a / 2, k - 1);
      Halved(p, x, a);
    }
  }

  lemma Halved(p: nat, x: nat, a: nat)
    ensures (2 * p * x + a) / 2 == p * x + a / 2 && (2 * p * x + a) % 2 == a % 2
  {
    assert 2 * p * x + a == 2 * (p * x + a / 2) + a % 2;
  }

  /** Exclusive or of high and low digits, put together again. */
  lemma XorSplit(v: nat, w: nat, k: nat)
    ensures Xor(v, w) == Pow2(k) * Xor(Shr(v, k), Shr(w, k)) + Xor(Low(v, k), Low(w, k))
  {
    XorDigits(v, w, k);
    DigitsMeaning(Xor(v, w), k);
  }

  lemma XorParts(v: nat, w: nat, x: nat, y: nat, a: nat, b: nat, k: nat)
    requires Shr(v, k) == x && Low(v, k) == a && Shr(w, k) == y && Low(w, k) == b
    ensures Xor(v, w) == Pow2(k) * Xor(x, y) + Xor(a, b)
  {
    XorSplit(v, w, k);
  }

  lemma XorNibble(v: nat, w: nat, x: nat, y: nat, a: nat, b: nat)
    requires v == 16 * x + a && w == 16 * y + b && a < 16 && b < 16
    ensures Xor(v, w) == 16 * Xor(x, y) + Xor(a, b)
  {
    var k := 4;
    assert Pow2(k) == 16;
    DigitsOf(x, a, k);
    DigitsOf(y, b, k);
    XorParts(v, w, x, y, a, b, k);
  }

  /** The three exclusive ors of a_swap_xor_m exchange the contents of two places. */
  lemma XorSwap(a: nat, b: nat)
    ensures var a1 := Xor(a, b);
      var b1 := Xor(b, a1);
      var a2 := Xor(a1, b1);
      a2 == b && b1 == a
  {
    XorCommutative(a, b);
    XorAssociative(b, b, a);
    XorSelf(b);
    XorAssociative(b, a, a);
    XorSelf(a);
    XorCommutative(b, 0);
  }
}

/** The XOR folding that turns a hash into a bucket number: hash_reduce in a/hash.c. */
module XorFold {
  import opened Words

  /** The exclusive or of the `bits`-wide digits of `val`. */
  function Reduce(val: nat, bits: nat): nat
    decreases val
  {
    if bits == 0 || val == 0 then 0
    else
      ShiftFalls(val, bits);
      Xor(Low(val, bits), Reduce(Shr(val, bits), bits))
  }

  /** The folded value is a bucket number of a table of 2^bits buckets. */
  lemma {:induction false} ReduceBelow(val: nat, bits: nat)
    ensures Reduce(val, bits) < Pow2(bits)
    decreases val
  {
    if bits == 0 || val == 0 {
    } else {
      ShiftFalls(val, bits);
      DigitsMeaning(val, bits);
      ReduceBelow(Shr(val, bits), bits);
      XorBelow(Low(val, bits), Reduce(Shr(val, bits), bits), bits);
    }
  }

  /** Small values are their own bucket. */
  lemma ReduceIdentity(val: nat, bits: nat)
    requires val < Pow2(bits)
    ensures Reduce(val, bits) == val
  {
    ShiftedOut(val, bits);
  }

  /** The defining equation holds for zero too. */
  lemma ReduceUnfold(val: nat, bits: nat)
    requires bits > 0
    ensures Reduce(val, bits) == Xor(Low(val, bits), Reduce(Shr(val, bits), bits))
  {
    ShiftedOut(0, bits);
  }

  /** Folding is linear, whatever the lengths of the three loops involved. */
  lemma {:induction false} ReduceLinear(x: nat, y: nat, bits: nat)
    ensures Reduce(Xor(x, y), bits) == Xor(Reduce(x, bits), Reduce(y, bits))
    decreases x + y
  {
    if bits == 0 || x == 0 || y == 0 {
    } else {
      var x', y' := Shr(x, bits), Shr(y, bits);
      ShiftFalls(x, bits);
      ShiftFalls(y, bits);
      ReduceUnfold(Xor(x, y), bits);
      XorDigits(x, y, bits);
      ReduceLinear(x', y', bits);
      XorInterchange(Low(x, bits), Low(y, bits), Reduce(x', bits), Reduce(y', bits));
    }
  }

  /** Moving all digits up by one changes nothing: every digit counts, and all alike.  With the
      linearity and the identity on small values this leaves no other folding. */
  lemma ReduceShifted(val: nat, bits: nat)
    ensures Reduce(Pow2(bits) * val, bits) == Reduce(val, bits)
  {
    if bits > 0 {
      DigitsOf(val, 0, bits);
      ReduceUnfold(Pow2(bits) * val, bits);
    }
  }

  /** The source's loop, for the widths at which its shifts are defined. */
  method HashReduce(val: nat, bits: nat) returns (ret: nat)
    requires val < WORD && bits < 32
    ensures ret == Reduce(val, bits)
    ensures ret < Pow2(bits)
  {
    ReduceBelow(val, bits);
    ret := 0;
    if bits == 0 {
      return 0;
    }
    var rest: nat := val;
    while rest != 0
      invariant Xor(ret, Reduce(rest, bits)) == Reduce(val, bits)
      decreases rest
    {
      ShiftFalls(rest, bits);
      XorAssociative(ret, Low(rest, bits), Reduce(Shr(rest, bits), bits));
      ret := Xor(ret, Low(rest, bits));
      rest := Shr(rest, bits);
    }
    XorCommutative(ret, 0);
  }
}

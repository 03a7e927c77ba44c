/** The one-at-a-time hash of a/hash.c, on 32-bit words with wrap-around.

    Every mixing step and the finaliser are bijections of 32-bit words; the inverses are
    written out.  A difference in one byte therefore survives all later bytes. */
module Joat {
  import opened Words

  type Word = x: int | 0 <= x < WORD
  type Byte = x: int | 0 <= x < 0x100

  // ----- The rounds of one byte, and the finaliser -----

  /** `x + (x << 3)`, `x + (x << 10)` and `x + (x << 15)` in 32 bits. */
  function Add3(x: Word): Word { (x + x * 8 % WORD) % WORD }
  function Add10(x: Word): Word { (x + x * 0x400 % WORD) % WORD }
  function Add15(x: Word): Word { (x + x * 0x8000 % WORD) % WORD }

  /** `x ^ (x >> k)` */
  function XorShifted(x: Word, k: nat): Word {
    WordShift(x, k);
    XorBelowWord(x, Shr(x, k));
    Xor(x, Shr(x, k))
  }

  function Mix(hash: Word, byte: Byte): Word {
    XorShifted(Add10((hash + byte) % WORD), 6)
  }

  function Finish(hash: Word): Word {
    Add15(XorShifted(Add3(hash), 11))
  }

  /** The loop of the hash, from a given running value. */
  function Absorb(hash: Word, key: seq<Byte>): Word
    decreases |key|
  {
    if key == [] then hash else Absorb(Mix(hash, key[0]), key[1..])
  }

  function Hash(key: seq<Byte>): Word {
    Finish(Absorb(0, key))
  }

  lemma WordShift(x: Word, k: nat)
    ensures Shr(x, k) < WORD
  {
    ShiftFalls(x, k);
  }

  lemma XorBelowWord(x: Word, y: Word)
    ensures Xor(x, y) < WORD
  {
    PowersOfTwo();
    XorBelow(x, y, 32);
  }

  // ----- Inverses -----

  // Adding a shifted copy multiplies by 1 + 2^k, which is odd; a xor with a shifted copy is
  // undone by xoring with copies shifted by k, 2k, 4k.

  function UnAdd3(x: Word): Word { x * 0x38e3_8e39 % WORD }
  function UnAdd10(x: Word): Word { x * 0xc00f_fc01 % WORD }
  function UnAdd15(x: Word): Word { x * 0x3fff_8001 % WORD }

  function UnXor6(x: Word): Word {
    XorShifted(XorShifted(XorShifted(x, 6), 12), 24)
  }

  function UnXor11(x: Word): Word {
    XorShifted(XorShifted(x, 11), 22)
  }

  lemma Congruent(x: int, k: int)
    ensures (x + WORD * k) % WORD == x % WORD
  {}

  lemma AddsMultiply(x: Word)
    ensures Add3(x) == x * 9 % WORD && Add10(x) == x * 0x401 % WORD && Add15(x) == x * 0x8001 % WORD
  {
    Congruent(x * 9, -(x * 8 / WORD));
    Congruent(x * 0x401, -(x * 0x400 / WORD));
    Congruent(x * 0x8001, -(x * 0x8000 / WORD));
  }

  /** Factors with product 1 modulo 2^32 undo each other. */
  lemma ProductInverse(x: Word, m: nat, inv: nat, k: nat)
    requires m * inv == 1 + k * WORD
    ensures (x * m % WORD) * inv % WORD == x
  {
    var q, r := x * m / WORD, x * m % WORD;
    assert r * inv == x * m * inv - WORD * q * inv by {
      assert r == x * m - WORD * q;
    }
    assert x * m * inv == x * (m * inv);
    assert x * (m * inv) == x + WORD * (x * k);
    assert WORD * q * inv == WORD * (q * inv);
    Congruent(x, x * k - q * inv);
  }

  lemma Add3Inverse(x: Word)
    ensures UnAdd3(Add3(x)) == x == Add3(UnAdd3(x))
  {
    AddsMultiply(x);
    AddsMultiply(UnAdd3(x));
    ProductInverse(x, 9, 0x38e3_8e39, 2);
    ProductInverse(x, 0x38e3_8e39, 9, 2);
  }

  lemma Add10Inverse(x: Word)
    ensures UnAdd10(Add10(x)) == x == Add10(UnAdd10(x))
  {
    AddsMultiply(x);
    AddsMultiply(UnAdd10(x));
    ProductInverse(x, 0x401, 0xc00f_fc01, 769);
    ProductInverse(x, 0xc00f_fc01, 0x401, 769);
  }

  lemma Add15Inverse(x: Word)
    ensures UnAdd15(Add15(x)) == x == Add15(UnAdd15(x))
  {
    AddsMultiply(x);
    AddsMultiply(UnAdd15(x));
    ProductInverse(x, 0x8001, 0x3fff_8001, 8192);
    ProductInverse(x, 0x3fff_8001, 0x8001, 8192);
  }

  /** Two different shifts commute, each being linear. */
  lemma XorShiftedCommute(x: Word, j: nat, k: nat)
    ensures XorShifted(XorShifted(x, j), k) == Xor(Xor(x, Shr(x, j)), Xor(Shr(x, k), Shr(x, j + k)))
    ensures XorShifted(XorShifted(x, j), k) == XorShifted(XorShifted(x, k), j)
  {
    XorDigits(x, Shr(x, j), k);
    XorDigits(x, Shr(x, k), j);
    ShiftTwice(x, j, k);
    ShiftTwice(x, k, j);
    XorInterchange(x, Shr(x, j), Shr(x, k), Shr(x, j + k));
  }

  /** The same shift twice is one shift of twice the distance. */
  lemma XorShiftedTwice(x: Word, k: nat)
    ensures XorShifted(XorShifted(x, k), k) == XorShifted(x, 2 * k)
  {
    var s, t := Shr(x, k), Shr(x, 2 * k);
    XorShiftedCommute(x, k, k);
    XorAssociative(x, s, Xor(s, t));
    XorAssociative(s, s, t);
    XorSelf(s);
  }

  /** A shift by the whole width changes nothing. */
  lemma XorShiftedOut(x: Word, k: nat)
    requires k >= 32
    ensures XorShifted(x, k) == x
  {
    PowersOfTwo();
    Pow2Grows(32, k);
    ShiftedOut(x, k);
  }

  lemma Xor6Inverse(x: Word)
    ensures UnXor6(XorShifted(x, 6)) == x == XorShifted(UnXor6(x), 6)
  {
    XorShiftedTwice(x, 6);
    XorShiftedTwice(x, 12);
    XorShiftedTwice(x, 24);
    XorShiftedOut(x, 48);
    XorShiftedCommute(XorShifted(XorShifted(x, 6), 12), 24, 6);
    XorShiftedCommute(XorShifted(x, 6), 12, 6);
  }

  lemma Xor11Inverse(x: Word)
    ensures UnXor11(XorShifted(x, 11)) == x == XorShifted(UnXor11(x), 11)
  {
    XorShiftedTwice(x, 11);
    XorShiftedTwice(x, 22);
    XorShiftedOut(x, 44);
    XorShiftedCommute(XorShifted(x, 11), 22, 11);
  }

  function Unmix(hash: Word, byte: Byte): Word {
    (UnAdd10(UnXor6(hash)) - byte) % WORD
  }

  function Unfinish(hash: Word): Word {
    UnAdd3(UnXor11(UnAdd15(hash)))
  }

  lemma ByteInverse(x: Word, byte: Byte)
    ensures ((x + byte) % WORD - byte) % WORD == x == ((x - byte) % WORD + byte) % WORD
  {}

  lemma UnmixMix(hash: Word, byte: Byte)
    ensures Unmix(Mix(hash, byte), byte) == hash
  {
    var sum := (hash + byte) % WORD;
    var added := Add10(sum);
    assert UnXor6(Mix(hash, byte)) == added by {
      Xor6Inverse(added);
    }
    assert UnAdd10(added) == sum by {
      Add10Inverse(sum);
    }
    ByteInverse(hash, byte);
  }

  lemma MixUnmix(hash: Word, byte: Byte)
    ensures Mix(Unmix(hash, byte), byte) == hash
  {
    var added := UnXor6(hash);
    var sum := UnAdd10(added);
    ByteInverse(sum, byte);
    assert Mix(Unmix(hash, byte), byte) == XorShifted(Add10(sum), 6);
    assert Add10(sum) == added by {
      Add10Inverse(added);
    }
    Xor6Inverse(hash);
  }

  /** A mixing step is a bijection of 32-bit words for every byte. */
  lemma MixBijective(hash: Word, byte: Byte)
    ensures Unmix(Mix(hash, byte), byte) == hash
    ensures Mix(Unmix(hash, byte), byte) == hash
  {
    UnmixMix(hash, byte);
    MixUnmix(hash, byte);
  }

  /** So is the finaliser. */
  lemma FinishBijective(hash: Word)
    ensures Unfinish(Finish(hash)) == hash
    ensures Finish(Unfinish(hash)) == hash
  {
    var h1 := Add3(hash);
    Add3Inverse(hash);
    Xor11Inverse(h1);
    Add15Inverse(XorShifted(h1, 11));
    Add15Inverse(hash);
    Xor11Inverse(UnAdd15(hash));
    Add3Inverse(UnXor11(UnAdd15(hash)));
  }

  /** Different bytes lead one running value to different ones. */
  lemma MixSeparatesBytes(hash: Word, a: Byte, b: Byte)
    requires a != b
    ensures Mix(hash, a) != Mix(hash, b)
  {
    var x, y := (hash + a) % WORD, (hash + b) % WORD;
    assert x != y;
    Add10Inverse(x);
    Add10Inverse(y);
    Xor6Inverse(Add10(x));
    Xor6Inverse(Add10(y));
  }

  /** Absorbing any bytes, however many, keeps different running values different. */
  lemma {:induction false} AbsorbInjective(g: Word, h: Word, key: seq<Byte>)
    requires g != h
    ensures Absorb(g, key) != Absorb(h, key)
    decreases |key|
  {
    if key == [] {
    } else {
      MixBijective(g, key[0]);
      MixBijective(h, key[0]);
      AbsorbInjective(Mix(g, key[0]), Mix(h, key[0]), key[1..]);
    }
  }

  lemma {:induction false} AbsorbAppend(hash: Word, a: seq<Byte>, b: seq<Byte>)
    ensures Absorb(hash, a + b) == Absorb(Absorb(hash, a), b)
    decreases |a|
  {
    if a == [] {
      assert a + b == b;
    } else {
      assert (a + b)[1..] == a[1..] + b;
      AbsorbAppend(Mix(hash, a[0]), a[1..], b);
    }
  }

  /** Two strings of equal length that differ in exactly one byte have different hashes. */
  lemma OneByteNeverCollides(a: seq<Byte>, b: seq<Byte>, i: nat)
    requires |a| == |b| && i < |a|
    requires forall j | 0 <= j < |a| :: a[j] == b[j] <==> j != i
    ensures Hash(a) != Hash(b)
  {
    var prefix, suffix := a[..i], a[i + 1..];
    assert a == prefix + ([a[i]] + suffix);
    assert b == prefix + ([b[i]] + suffix);
    AbsorbAppend(0, prefix, [a[i]] + suffix);
    AbsorbAppend(0, prefix, [b[i]] + suffix);
    var h := Absorb(0, prefix);
    MixSeparatesBytes(h, a[i], b[i]);
    AbsorbInjective(Mix(h, a[i]), Mix(h, b[i]), suffix);
    FinishBijective(Absorb(0, a));
    FinishBijective(Absorb(0, b));
  }

  // ----- Which hash it is -----

  lemma ZeroStays()
    ensures Mix(0, 0) == 0 && Finish(0) == 0
  {
    assert Shr(0, 6) == 0 && Shr(0, 11) == 0;
    assert Xor(0, 0) == 0;
  }

  lemma RoundOfA()
    ensures Mix(0, 0x61) == 0x1_8270
  {
    assert Add10(0x61) == 0x1_8461;
    assert Shr(0x1_8461, 6) == 0x611;
    XorNibble(0x1_8461, 0x611, 0x1846, 0x61, 1, 1);
    XorNibble(0x1846, 0x61, 0x184, 6, 6, 1);
    XorNibble(0x184, 6, 0x18, 0, 4, 6);
    assert Xor(1, 1) == 0 && Xor(6, 1) == 7 && Xor(4, 6) == 2 && Xor(0x18, 0) == 0x18;
    assert Xor(0x1_8461, 0x611) == 0x1_8270;
  }

  lemma FinishOfA()
    ensures Finish(0x1_8270) == 0xca2e_9442
  {
    assert Add3(0x1_8270) == 0xd_95f0;
    assert Shr(0xd_95f0, 11) == 0x1b2;
    XorNibble(0xd_95f0, 0x1b2, 0xd95f, 0x1b, 0, 2);
    XorNibble(0xd95f, 0x1b, 0xd95, 1, 0xf, 0xb);
    XorNibble(0xd95, 1, 0xd9, 0, 5, 1);
    assert Xor(0, 2) == 2 && Xor(0xf, 0xb) == 4 && Xor(5, 1) == 4 && Xor(0xd9, 0) == 0xd9;
    assert Xor(0xd_95f0, 0x1b2) == 0xd_9442;
    assert Add15(0xd_9442) == 0xca2e_9442;
  }

  /** Leading zero bytes do not change the hash, and "a" has its published hash: the running value
      starts at 0, and the shifts are by 10, 6, 3, 11 and 15. */
  lemma KnownHashes(key: seq<Byte>)
    ensures Hash([]) == 0
    ensures Hash([0] + key) == Hash(key)
    ensures Hash([0x61]) == 0xca2e_9442
  {
    ZeroStays();
    RoundOfA();
    FinishOfA();
    assert ([0] + key)[1..] == key;
    assert [0x61][1..] == [];
  }

  /** The source's loop over the `len` bytes behind the key pointer. */
  method HashJoat(key: array<Byte>, len: nat) returns (hash: Word)
    requires len <= key.Length
    ensures hash == Hash(key[..len])
  {
    hash := 0;
    var i := 0;
    while i < len
      invariant i <= len
      invariant Absorb(hash, key[i..len]) == Absorb(0, key[..len])
    {
      assert key[i..len][0] == key[i];
      assert key[i..len][1..] == key[i + 1..len];
      hash := (hash + key[i]) % WORD;
      hash := Add10(hash);
      hash := XorShifted(hash, 6);
      i := i + 1;
    }
    hash := Add3(hash);
    hash := XorShifted(hash, 11);
    hash := Add15(hash);
  }
}

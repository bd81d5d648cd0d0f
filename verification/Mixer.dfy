/** The keyed 64-bit mixer behind account domains, sliced picks and cycle material. */
module Mixer {
  import opened Words
  import opened Addresses

  const GOLD: Word := 0x9E37_79B9_7F4A_7C15
  const MUL1: Word := 0xBF58_476D_1CE4_E5B9
  const MUL2: Word := 0x94D0_49BB_1331_11EB

  /** `x ^ (x >> s)`. */
  function XorShift(x: Word, s: nat): Word { ShrSmaller(x, s); Xor64(x, Shr(x, s)) }

  /** `(x ^ (x >> s)) * m`. */
  function Round(x: Word, s: nat, m: Word): Word { Times64(XorShift(x, s), m) }

  /** Wrapping 64-bit multiplication. */
  function Times64(x: Word, y: Word): Word { LowW64(Times(x, y)); Low(Times(x, y), 64) }

  function SplitMix64(x: Word): Word { Mix(Add64(x, GOLD), MUL1, MUL2) }

  function Mix(x: Word, m1: Word, m2: Word): Word {
    XorShift(Round(Round(x, 30, m1), 27, m2), 31)
  }

  /** Per-account stream domain. */
  function AccountDomain(seed: Word, idx: Word): Word {
    SplitMix64(Xor64(seed, Times64(Add64(idx, 1), GOLD)))
  }

  /** 64-bit FNV-1a over a destination name (hash/fnv New64a). */
  function TweakHost(dest: Bytes): Word {
    if |dest| == 0 then 0xcbf2_9ce4_8422_2325
    else Times64(Xor64(TweakHost(dest[..|dest| - 1]), dest[|dest| - 1]), 0x100_0000_01b3)
  }

  // ----- the inverse mixer -----

  const MUL1_INV: Word := 0x96de1b173f119089
  const MUL2_INV: Word := 0x319642b2d24d8ec3
  const GOLD_INV: Word := 0xf1de83e19937733d

  function UnXorShift(y: nat, s: nat): nat
    requires s > 0
    decreases y
  {
    if y == 0 then 0 else ShrSmaller(y, s); Xor(y, UnXorShift(Shr(y, s), s))
  }

  function UnRound(y: Word, s: nat, inv: Word): Word
    requires s > 0
  {
    UnXorShiftBound(Times64(y, inv), s);
    UnXorShift(Times64(y, inv), s)
  }

  function Unmix64(y: Word): Word { Sub64(Unmix(y, MUL1_INV, MUL2_INV), GOLD) }

  function Unmix(y: Word, i1: Word, i2: Word): Word {
    UnXorShiftBound(y, 31);
    UnRound(UnRound(UnXorShift(y, 31), 27, i2), 30, i1)
  }

  lemma {:induction false} ShrSmaller(x: nat, s: nat)
    ensures Shr(x, s) <= x
    ensures s > 0 && x > 0 ==> Shr(x, s) < x
    decreases s
  {
    if s > 0 {
      ShrSmaller(x / 2, s - 1);
    }
  }

  lemma {:induction false} ShrXor(a: nat, b: nat, s: nat)
    ensures Shr(Xor(a, b), s) == Xor(Shr(a, s), Shr(b, s))
    decreases s
  {
    if s > 0 {
      ShrXor(a / 2, b / 2, s - 1);
      assert Xor(a, b) / 2 == Xor(a / 2, b / 2);
    }
  }

  lemma {:induction false} UnXorShiftBound(y: Word, s: nat)
    requires s > 0
    ensures UnXorShift(y, s) < W64
    decreases y
  {
    if y > 0 {
      ShrSmaller(y, s);
      UnXorShiftBound(Shr(y, s), s);
      BitwiseWord(XOR, y, UnXorShift(Shr(y, s), s));
    }
  }

  lemma {:induction false} UndoXorShift(x: Word, s: nat)
    requires s > 0
    ensures UnXorShift(XorShift(x, s), s) == x
    decreases x
  {
    if x == 0 {
      LowOfSmall(0, s);
    } else {
      var h := Shr(x, s);
      ShrSmaller(x, s);
      UndoXorShift(h, s);
      ShrXor(x, h, s);
      XorCancel(x, h);
      assert XorShift(x, s) != 0 by {
        XorZero(h);
      }
    }
  }

  lemma {:induction false} RedoXorShift(y: Word, s: nat)
    requires s > 0
    ensures UnXorShift(y, s) < W64 && XorShift(UnXorShift(y, s), s) == y
    decreases y
  {
    UnXorShiftBound(y, s);
    if y == 0 {
      LowOfSmall(0, s);
    } else {
      ShrSmaller(y, s);
      RedoXorShift(Shr(y, s), s);
      var z := UnXorShift(Shr(y, s), s);
      ShrXor(y, z, s);
      XorCancel(z, Shr(z, s));
      XorCancel(y, z);
    }
  }

  predicate Inverses(m: Word, inv: Word) { m * inv % W64 == 1 }

  /** Multiplying by a constant and by its inverse modulo 2^64. */
  lemma MulInverse(x: Word, m: Word, inv: Word)
    requires Inverses(m, inv)
    ensures Times64(Times64(x, m), inv) == x && Times64(Times64(x, inv), m) == x
  {
    MulInverseOneWay(x, m, inv);
    assert m * inv == inv * m;
    MulInverseOneWay(x, inv, m);
  }

  lemma MulInverseOneWay(x: Word, m: Word, inv: Word)
    requires Inverses(m, inv)
    ensures Times64(Times64(x, m), inv) == x
  {
    LowProduct(Times(x, m), inv);
    Rotate(x, m, inv);
    LowProduct(Times(m, inv), x);
    LowOfInverses(m, inv, x);
  }

  lemma LowOfInverses(m: Word, inv: Word, x: Word)
    requires Inverses(m, inv)
    ensures Low(Times(m, inv), 64) == 1
    ensures Low(Times(1, x), 64) == x
  {
    hide Low, Shr;
    TimesIsProduct(m, inv);
    LowW64(m * inv);
    TimesIsProduct(1, x);
    LowW64(x);
  }

  lemma Rotate(a: nat, b: nat, c: nat)
    ensures Times(Times(a, b), c) == Times(Times(b, c), a)
  {
    TimesIsProduct(a, b);
    TimesIsProduct(b, c);
    TimesIsProduct(Times(a, b), c);
    TimesIsProduct(Times(b, c), a);
    MulRotate(a, b, c);
  }

  lemma MulRotate(a: nat, b: nat, c: nat)
    ensures a * b * c == b * c * a
  {
  }

  /** Truncating a factor first does not change the truncated product. */
  lemma LowProduct(a: nat, b: nat)
    ensures Low(Times(Low(a, 64), b), 64) == Low(Times(a, b), 64)
  {
    TimesComm(a, b);
    TimesComm(Low(a, 64), b);
    LowTimes(b, a, 64);
  }

  lemma ProductIs(x: Word, y: Word)
    ensures Times64(x, y) == x * y % W64
  {
    hide Times, Low;
    TimesIsProduct(x, y);
    LowW64(x * y);
  }

  lemma InverseConstants()
    ensures Inverses(MUL1, MUL1_INV) && Inverses(MUL2, MUL2_INV) && Inverses(GOLD, GOLD_INV)
  {
  }

  lemma UndoRound(x: Word, s: nat, m: Word, inv: Word)
    requires s > 0 && Inverses(m, inv)
    ensures UnRound(Round(x, s, m), s, inv) == x
  {
    MulInverse(XorShift(x, s), m, inv);
    UndoXorShift(x, s);
  }

  lemma RedoRound(y: Word, s: nat, m: Word, inv: Word)
    requires s > 0 && Inverses(m, inv)
    ensures Round(UnRound(y, s, inv), s, m) == y
  {
    RedoXorShift(Times64(y, inv), s);
    MulInverse(y, m, inv);
  }

  lemma UndoRounds(a: Word, m1: Word, i1: Word, m2: Word, i2: Word)
    requires Inverses(m1, i1) && Inverses(m2, i2)
    ensures Unmix(Mix(a, m1, m2), i1, i2) == a
  {
    var b := Round(a, 30, m1);
    UndoRound(a, 30, m1, i1);
    UndoRound(b, 27, m2, i2);
    UndoXorShift(Round(b, 27, m2), 31);
  }

  /** Unmixing undoes mixing: distinct words mix to distinct words. */
  lemma UnmixMix(x: Word)
    ensures Unmix64(SplitMix64(x)) == x
  {
    InverseConstants();
    UndoRounds(Add64(x, GOLD), MUL1, MUL1_INV, MUL2, MUL2_INV);
  }

  lemma RedoRounds(y: Word, m1: Word, i1: Word, m2: Word, i2: Word)
    requires Inverses(m1, i1) && Inverses(m2, i2)
    ensures Mix(Unmix(y, i1, i2), m1, m2) == y
  {
    RedoXorShift(y, 31);
    var c: Word := UnXorShift(y, 31);
    RedoRound(c, 27, m2, i2);
    RedoRound(UnRound(c, 27, i2), 30, m1, i1);
  }

  /** Mixing undoes unmixing: every word is a mixed value. */
  lemma MixUnmix(y: Word)
    ensures SplitMix64(Unmix64(y)) == y
  {
    hide Mix, Unmix, Bitwise, Times, Low;
    InverseConstants();
    RedoRounds(y, MUL1, MUL1_INV, MUL2, MUL2_INV);
  }

  lemma GoldInjective(x: Word, y: Word)
    requires x != y
    ensures Times64(x, GOLD) != Times64(y, GOLD)
  {
    InverseConstants();
    MulInverse(x, GOLD, GOLD_INV);
    MulInverse(y, GOLD, GOLD_INV);
  }

  lemma XorInjective(x: Word, y: Word, k: Word)
    requires x != y
    ensures Xor64(x, k) != Xor64(y, k) && Xor64(k, x) != Xor64(k, y)
  {
    XorComm(k, x);
    XorComm(k, y);
    XorCancel(x, k);
    XorCancel(y, k);
  }

  lemma MixInjective(x: Word, y: Word)
    requires x != y
    ensures SplitMix64(x) != SplitMix64(y)
  {
    UnmixMix(x);
    UnmixMix(y);
  }

  /** Different accounts of one pool never share a domain. */
  lemma AccountDomainsDistinct(seed: Word, i: Word, j: Word)
    requires i != j
    ensures AccountDomain(seed, i) != AccountDomain(seed, j)
  {
    var x, y := Add64(i, 1), Add64(j, 1);
    GoldInjective(x, y);
    XorInjective(Times64(x, GOLD), Times64(y, GOLD), seed);
    MixInjective(Xor64(seed, Times64(x, GOLD)), Xor64(seed, Times64(y, GOLD)));
  }
}

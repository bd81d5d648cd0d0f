/** Evaluating the mixer on given words: exclusive or goes byte by byte through bit
    vectors, shifts and products through ordinary arithmetic. */
module Evaluation {
  import opened Words
  import opened Mixer

  // ----- bytes -----

  function Value(a: bv8): nat { a as nat }
  function Bottom(a: bv8): nat { (a & 1) as nat }
  function Rest(a: bv8): bv8 { a >> 1 }
  function Both(a: bv8, b: bv8): bv8 { a ^ b }

  lemma Halves(a: bv8)
    ensures Value(a) == Bottom(a) + 2 * Value(Rest(a)) && Bottom(a) < 2
  {
  }

  lemma Bits(a: bv8, b: bv8)
    ensures Bottom(Both(a, b)) == (Bottom(a) + Bottom(b)) % 2
    ensures Rest(Both(a, b)) == Both(Rest(a), Rest(b))
  {
  }

  lemma Zeros(a: bv8, b: bv8)
    requires Value(a) == 0 && Value(b) == 0
    ensures Value(Both(a, b)) == 0
  {
  }

  lemma {:induction false} XorByte(a: bv8, b: bv8, n: nat)
    requires Value(a) < Pow2(n) && Value(b) < Pow2(n)
    ensures Xor(Value(a), Value(b)) == Value(Both(a, b))
    decreases n
  {
    hide Bitwise, Value, Bottom, Rest, Both;
    if n == 0 {
      XorZero(0);
      Zeros(a, b);
    } else {
      Halves(a);
      Halves(b);
      Halves(Both(a, b));
      Bits(a, b);
      XorBelow(Bottom(a), Value(Rest(a)), Bottom(b), Value(Rest(b)));
      XorByte(Rest(a), Rest(b), n - 1);
    }
  }

  // ----- words -----

  /** One more byte below. */
  function Push(h: nat, l: bv8): nat { 256 * h + Value(l) }

  lemma XorPush(h: nat, l: bv8, k: nat, m: bv8)
    ensures Xor(Push(h, l), Push(k, m)) == Push(Xor(h, k), Both(l, m))
  {
    hide Bitwise, Shl, Pow2, Both;
    Pow2Values();
    XorJoin(h, Value(l), k, Value(m), 8);
    ShlIsProduct(h, 8);
    ShlIsProduct(k, 8);
    ShlIsProduct(Xor(h, k), 8);
    XorByte(l, m, 8);
  }

  function Four(p: nat, a: bv8, b: bv8, c: bv8, d: bv8): nat { Push(Push(Push(Push(p, a), b), c), d) }

  lemma FourIs(p: nat, a: bv8, b: bv8, c: bv8, d: bv8)
    ensures Four(p, a, b, c, d)
         == 0x1_0000_0000 * p + 0x100_0000 * Value(a) + 0x1_0000 * Value(b) + 0x100 * Value(c) + Value(d)
  {
    hide Value;
  }

  /** The word spelled by eight bytes. */
  function Spelled(a: bv8, b: bv8, c: bv8, d: bv8, e: bv8, f: bv8, g: bv8, h: bv8): nat {
    0x100_0000_0000_0000 * Value(a) + 0x1_0000_0000_0000 * Value(b)
    + 0x100_0000_0000 * Value(c) + 0x1_0000_0000 * Value(d)
    + 0x100_0000 * Value(e) + 0x1_0000 * Value(f) + 0x100 * Value(g) + Value(h)
  }

  lemma SpelledIs(a: bv8, b: bv8, c: bv8, d: bv8, e: bv8, f: bv8, g: bv8, h: bv8)
    ensures Spelled(a, b, c, d, e, f, g, h) == Four(Four(0, a, b, c, d), e, f, g, h)
  {
    hide Value, Four;
    FourIs(0, a, b, c, d);
    FourIs(Four(0, a, b, c, d), e, f, g, h);
  }

  lemma XorFour(p: nat, a: bv8, b: bv8, c: bv8, d: bv8, q: nat, a': bv8, b': bv8, c': bv8, d': bv8)
    ensures Xor(Four(p, a, b, c, d), Four(q, a', b', c', d'))
         == Four(Xor(p, q), Both(a, a'), Both(b, b'), Both(c, c'), Both(d, d'))
  {
    hide Bitwise, Push, Both;
    XorPush(p, a, q, a');
    XorPush(Push(p, a), b, Push(q, a'), b');
    XorPush(Push(Push(p, a), b), c, Push(Push(q, a'), b'), c');
    XorPush(Push(Push(Push(p, a), b), c), d, Push(Push(Push(q, a'), b'), c'), d');
  }

  lemma XorEight(a: bv8, b: bv8, c: bv8, d: bv8, e: bv8, f: bv8, g: bv8, h: bv8,
                 a': bv8, b': bv8, c': bv8, d': bv8, e': bv8, f': bv8, g': bv8, h': bv8)
    ensures Xor(Spelled(a, b, c, d, e, f, g, h), Spelled(a', b', c', d', e', f', g', h'))
         == Spelled(Both(a, a'), Both(b, b'), Both(c, c'), Both(d, d'),
                    Both(e, e'), Both(f, f'), Both(g, g'), Both(h, h'))
  {
    hide Bitwise, Four, Both, Spelled;
    XorFour(Four(0, a, b, c, d), e, f, g, h, Four(0, a', b', c', d'), e', f', g', h');
    XorFour(0, a, b, c, d, 0, a', b', c', d');
    XorZero(0);
    SpelledIs(a, b, c, d, e, f, g, h);
    SpelledIs(a', b', c', d', e', f', g', h');
    SpelledIs(Both(a, a'), Both(b, b'), Both(c, c'), Both(d, d'), Both(e, e'), Both(f, f'), Both(g, g'), Both(h, h'));
  }

  // ----- the mixer -----

  lemma XorShiftIs(x: Word, s: nat, y: Word, r: Word)
    requires y == x / Pow2(s) && Xor(x, y) == r
    ensures XorShift(x, s) == r
  {
    hide Bitwise, Shr, Pow2;
    ShrLowAreDivMod(x, s);
  }

  lemma ShiftPowers()
    ensures Pow2(27) == 0x800_0000 && Pow2(30) == 0x4000_0000 && Pow2(31) == 0x8000_0000
  {
    Pow2Values();
    assert Pow2(27) == 8 * Pow2(24);
    assert Pow2(30) == 8 * Pow2(27);
    assert Pow2(31) == 2 * Pow2(30);
  }

  /** The values between a word and its mixture. */
  predicate MixesTo(x: Word, a: Word, b: Word, c: Word, d: Word, e: Word, f: Word) {
    a == Add64(x, GOLD) && Xor(a, a / 0x4000_0000) == b && b * MUL1 % W64 == c
    && Xor(c, c / 0x800_0000) == d && d * MUL2 % W64 == e && Xor(e, e / 0x8000_0000) == f
  }

  lemma MixIs(x: Word, a: Word, b: Word, c: Word, d: Word, e: Word, f: Word)
    ensures MixesTo(x, a, b, c, d, e, f) ==> SplitMix64(x) == f
  {
    hide XorShift, Bitwise, Pow2;
    if MixesTo(x, a, b, c, d, e, f) {
      ShiftPowers();
      XorShiftIs(a, 30, a / 0x4000_0000, b);
      XorShiftIs(c, 27, c / 0x800_0000, d);
      XorShiftIs(e, 31, e / 0x8000_0000, f);
      ProductIs(b, MUL1);
      ProductIs(d, MUL2);
    }
  }

  /** f is x mixed: an addition and, twice, an exclusive or with the upper bits and a
      product, and a last exclusive or, all modulo 2^64. */
  ghost predicate Mixes(x: Word, f: Word) {
    exists a: Word, b: Word, c: Word, d: Word, e: Word :: MixesTo(x, a, b, c, d, e, f)
  }

  /** The mixer mixes, and nothing else does. */
  lemma MixesIff(x: Word, f: Word)
    ensures Mixes(x, f) <==> f == SplitMix64(x)
  {
    hide Mixes, SplitMix64;
    MixStages(x);
    if Mixes(x, f) {
      MixedOnce(x, f);
    }
  }

  lemma MixedOnce(x: Word, f: Word)
    requires Mixes(x, f)
    ensures f == SplitMix64(x)
  {
    hide MixesTo, SplitMix64;
    forall a: Word, b: Word, c: Word, d: Word, e: Word | MixesTo(x, a, b, c, d, e, f)
      ensures f == SplitMix64(x)
    {
      MixIs(x, a, b, c, d, e, f);
    }
  }

  lemma MixStages(x: Word)
    ensures Mixes(x, SplitMix64(x))
  {
    hide XorShift, Bitwise, Pow2, Times64;
    var a := Add64(x, GOLD);
    var b := XorShift(a, 30);
    var c := Times64(b, MUL1);
    var d := XorShift(c, 27);
    var e := Times64(d, MUL2);
    ShiftPowers();
    XorShiftIs(a, 30, a / 0x4000_0000, Xor64(a, a / 0x4000_0000));
    XorShiftIs(c, 27, c / 0x800_0000, Xor64(c, c / 0x800_0000));
    XorShiftIs(e, 31, e / 0x8000_0000, Xor64(e, e / 0x8000_0000));
    ProductIs(b, MUL1);
    ProductIs(d, MUL2);
    assert MixesTo(x, a, b, c, d, e, SplitMix64(x));
  }

  // ----- mirrored words -----

  /** Four bits in the opposite order. */
  function Turned(x: nat): nat { 8 * (x % 2) + 4 * (x / 2 % 2) + 2 * (x / 4 % 2) + x / 8 }

  lemma MirrorTwo(x: nat, n: nat, p: nat)
    requires p == Pow2(n)
    ensures Reverse(x, n + 2)
         == (if x % 2 == 1 then 2 * p else 0) + (if x / 2 % 2 == 1 then p else 0) + Reverse(x / 4, n)
  {
    hide Reverse;
    ReverseTop(x, n + 2);
    ReverseTop(x / 2, n + 1);
    assert x / 2 / 2 == x / 4;
  }

  lemma MirrorNibble(x: nat)
    requires x < 16
    ensures Reverse(x, 4) == Turned(x)
  {
    hide Reverse, Pow2;
    Pow2Small();
    PowZero();
    MirrorTwo(x, 2, 4);
    MirrorTwo(x / 4, 0, 1);
    ReverseNothing(x / 4 / 4);
  }

  lemma MirrorByte(h: nat, l: nat, r: nat)
    requires h < 16 && l < 16 && r == 16 * Turned(l) + Turned(h)
    ensures Reverse(16 * h + l, 8) == r
  {
    hide Reverse, Shl, Pow2, Turned;
    Pow2Small();
    ShlIsProduct(h, 4);
    ShlIsProduct(Reverse(l, 4), 4);
    ReverseJoin(h, l, 4, 4);
    MirrorNibble(l);
    MirrorNibble(h);
  }

  /** One more byte below is one more byte above in the mirror. */
  lemma MirrorPush(h: nat, l: nat, n: nat, p: nat, r: nat, s: nat)
    requires l < 256 && p == Pow2(n) && r == Reverse(l, 8) && s == Reverse(h, n)
    ensures Reverse(256 * h + l, n + 8) == r * p + s
  {
    hide Reverse, Pow2, Shl;
    Pow2Values();
    ShlIsProduct(h, 8);
    ReverseJoin(h, l, n, 8);
    ShlIsProduct(r, n);
  }

  lemma BytePowers()
    ensures Pow2(8) == 0x100 && Pow2(16) == 0x1_0000 && Pow2(24) == 0x100_0000 && Pow2(32) == 0x1_0000_0000
    ensures Pow2(40) == 0x100_0000_0000 && Pow2(48) == 0x1_0000_0000_0000 && Pow2(56) == 0x100_0000_0000_0000
  {
    hide Pow2;
    Pow2Values();
    Pow2Byte(24);
    Pow2Byte(40);
    Pow2Byte(48);
  }
}

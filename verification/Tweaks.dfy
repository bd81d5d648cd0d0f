/** The destination hash reaches every word. Each byte of FNV-1a is a permutation of the
    states, and the permutations of the allowed bytes move any state to any other. */
module Tweaks {
  import opened Words
  import opened OddStride
  import opened Addresses
  import opened Mixer

  const OFFSET: Word := 0xcbf2_9ce4_8422_2325
  const PRIME: Word := 0x100_0000_01b3

  /** A destination as the proxy normalises it: no upper-case letters, no final dot. Only
      ASCII, for which lower-casing is bytewise. */
  predicate Normal(dest: Bytes) {
    (forall b | b in dest :: Allowed(b)) && (dest == [] || dest[|dest| - 1] != 0x2e)
  }

  predicate Allowed(b: Byte) { b < 0x80 && !(0x41 <= b <= 0x5a) }

  /** Hashing on from a state. */
  function Hash(h: Word, s: Bytes): Word {
    if |s| == 0 then h else Times64(Xor64(Hash(h, s[..|s| - 1]), s[|s| - 1]), PRIME)
  }

  lemma {:induction false} TweakIsHash(dest: Bytes)
    ensures TweakHost(dest) == Hash(OFFSET, dest)
  {
    if |dest| > 0 {
      TweakIsHash(dest[..|dest| - 1]);
    }
  }

  lemma {:induction false} HashConcat(h: Word, s: Bytes, t: Bytes)
    ensures Hash(h, s + t) == Hash(Hash(h, s), t)
    decreases |t|
  {
    hide Times64, Xor64;
    if |t| == 0 {
      assert s + t == s;
    } else {
      var c := t[..|t| - 1];
      assert (s + t)[..|s + t| - 1] == s + c;
      HashConcat(h, s, c);
    }
  }

  /** Some normal string takes state h to state k. */
  ghost predicate Reaches(h: Word, k: Word) {
    exists s: Bytes :: Normal(s) && Hash(h, s) == k
  }

  lemma ReachesSame(h: Word)
    ensures Reaches(h, h)
  {
    assert Normal([]) && Hash(h, []) == h;
  }

  lemma ReachesOn(h: Word, k: Word, l: Word)
    requires Reaches(h, k) && Reaches(k, l)
    ensures Reaches(h, l)
  {
    hide Hash, Allowed;
    var s: Bytes :| Normal(s) && Hash(h, s) == k;
    var t: Bytes :| Normal(t) && Hash(k, t) == l;
    HashConcat(h, s, t);
    assert t == [] ==> s + t == s;
    assert Normal(s + t);
  }

  // ----- multiplying by the prime, and back -----

  /** The n-th power of the prime. */
  function Power(n: nat): nat { if n == 0 then 1 else Power(n - 1) * PRIME }

  lemma {:induction false} PowerSum(m: nat, n: nat)
    ensures Power(m + n) == Power(m) * Power(n)
    decreases n
  {
    if n > 0 {
      PowerSum(m, n - 1);
      MulAssoc(Power(m), Power(n - 1), PRIME);
    }
  }

  /** 1 plus a multiple of 2m, squared, is 1 plus a multiple of 4m. */
  lemma SquareNearOne(x: nat, m: nat, q: nat)
    requires x == 1 + 2 * m * q
    ensures x * x == 1 + 4 * m * (q + m * q * q)
  {
  }

  /** Squaring again and again brings an odd number to 1 modulo ever higher powers of two. */
  lemma {:induction false} PowerNearOne(k: nat) returns (q: nat)
    ensures Power(Pow2(k)) == 1 + 2 * Pow2(k) * q
    decreases k
  {
    if k == 0 {
      q := (PRIME - 1) / 2;
      assert Power(1) == Power(0) * PRIME;
    } else {
      var r := PowerNearOne(k - 1);
      var m := Pow2(k - 1);
      PowerSum(m, m);
      SquareNearOne(Power(m), m, r);
      q := r + m * r * r;
    }
  }

  function Zeros(n: nat): (s: Bytes)
    ensures |s| == n && forall i | 0 <= i < n :: s[i] == 0
  {
    if n == 0 then [] else Zeros(n - 1) + [0]
  }

  lemma HashLast(h: Word, s: Bytes, b: Byte)
    ensures Hash(h, s + [b]) == Times64(Xor64(Hash(h, s), b), PRIME)
  {
    hide Times64, Bitwise;
    assert (s + [b])[..|s + [b]| - 1] == s;
  }

  lemma PowerStep(h: nat, n: nat)
    requires n > 0
    ensures h * Power(n) == h * Power(n - 1) * PRIME
  {
    MulAssoc(h, Power(n - 1), PRIME);
  }

  lemma {:induction false} HashZeros(h: Word, n: nat)
    ensures Hash(h, Zeros(n)) == h * Power(n) % W64
    decreases n
  {
    hide Hash, Power, Times64, Bitwise;
    if n == 0 {
      NoZeros(h);
    } else {
      HashZeros(h, n - 1);
      HashLast(h, Zeros(n - 1), 0);
      OneZero(h * Power(n - 1));
      PowerStep(h, n);
    }
  }

  lemma NoZeros(h: Word)
    ensures Hash(h, Zeros(0)) == h && h * Power(0) % W64 == h
  {
  }

  /** A zero byte multiplies by the prime. */
  lemma OneZero(x: nat)
    ensures Times64(Xor64(x % W64, 0), PRIME) == x * PRIME % W64
  {
    hide Bitwise, Times64;
    XorZero(x % W64);
    TimesPrime(x);
  }

  lemma ModTimes(x: nat, y: nat)
    ensures (x % W64) * y % W64 == x * y % W64
  {
    var q, r := x / W64, x % W64;
    assert x * y == (q * y) * W64 + r * y;
    AddMultiple(r * y, q * y);
  }

  lemma AddMultiple(x: nat, q: nat)
    ensures (x + q * W64) % W64 == x % W64
  {
    DivModUnique(x + q * W64, x / W64 + q, W64, x % W64);
  }

  /** Zero bytes alone undo the multiplication by the prime. */
  function Divider(): (s: Bytes)
    ensures |s| > 0 && forall i | 0 <= i < |s| :: s[i] == 0
  {
    Pow2Monotone(1, 63);
    Zeros(Pow2(63) - 1)
  }

  lemma Divided(v: Word)
    ensures Times64(Hash(v, Divider()), PRIME) == v
    ensures v % 128 == 0 ==> Hash(v, Divider()) % 128 == 0
  {
    hide Hash, Power, Times64, Pow2, Zeros;
    var n := Pow2(63);
    Pow2Monotone(1, 63);
    HashZeros(v, n - 1);
    TimesPrime(v * Power(n - 1));
    PowerStep(v, n);
    FullTurn();
    FullTurnFixes(v, n);
    if v % 128 == 0 {
      KeepsSevenZeros(v, Power(n - 1));
    }
  }

  lemma TimesPrime(x: nat)
    ensures Times64(x % W64, PRIME) == x * PRIME % W64
  {
    hide Times64;
    ProductIs(x % W64, PRIME);
    ModTimes(x, PRIME);
  }

  /** After so many multiplications every word is back. */
  lemma FullTurn()
    ensures Power(Pow2(63)) % W64 == 1
  {
    hide Power, Pow2;
    var q := PowerNearOne(63);
    HalfWord();
    assert Power(Pow2(63)) == 1 + q * W64;
    AddMultiple(1, q);
  }

  lemma HalfWord()
    ensures 2 * Pow2(63) == W64
  {
    Pow2Values();
    assert Pow2(64) == 2 * Pow2(63);
  }

  lemma FullTurnFixes(v: Word, n: nat)
    ensures Power(n) % W64 == 1 ==> v * Power(n) % W64 == v
  {
    hide Power;
    if Power(n) % W64 == 1 {
      UnitFixes(v, Power(n));
    }
  }

  lemma UnitFixes(v: Word, m: nat)
    requires m % W64 == 1
    ensures v * m % W64 == v
  {
    var q := m / W64;
    assert m == q * W64 + 1;
    assert v * m == (v * q) * W64 + v;
    DivModUnique(v * m, v * q, W64, v);
  }

  lemma KeepsSevenZeros(v: Word, k: nat)
    requires v % 128 == 0
    ensures (v * k % W64) % 128 == 0
  {
    var y := v / 128;
    var x, q := v * k, v * k / W64;
    assert x == 128 * (y * k);
    assert x % W64 == 128 * (y * k) - q * W64;
    assert x % W64 == 128 * (y * k - q * (W64 / 128));
  }

  // ----- changing the low seven bits -----

  /** A zero byte multiplies, zero bytes divide. */
  lemma MultiplyReached(x: Word)
    ensures Reaches(x, Times64(x, PRIME)) && Reaches(x, Hash(x, Divider()))
  {
    hide Times64, Bitwise, Pow2, Divider;
    XorZero(x);
    assert [0][..0] == [];
    assert Hash(x, [0]) == Times64(Xor64(Hash(x, []), 0), PRIME);
    assert Normal([0]) && Normal(Divider());
  }

  /** One allowed byte and zero bytes XOR that byte into the state. */
  lemma XorReached(x: Word, b: Byte)
    requires Allowed(b)
    ensures Reaches(x, Xor64(x, b))
  {
    hide Times64, Bitwise, Pow2, Divider;
    var y := Times64(Xor64(x, b), PRIME);
    var s := [b] + Divider();
    assert [b][..0] == [];
    assert Hash(x, [b]) == Times64(Xor64(Hash(x, []), b), PRIME);
    HashConcat(x, [b], Divider());
    Divided(y);
    FactorUnique(Hash(y, Divider()), Xor64(x, b));
    assert Normal(s) && Hash(x, s) == Xor64(x, b);
  }

  lemma FactorUnique(u: Word, y: Word)
    requires Times64(u, PRIME) == Times64(y, PRIME)
    ensures u == y
  {
    PrimeInverse();
    MulInverse(u, PRIME, PRIME_INV);
    MulInverse(y, PRIME, PRIME_INV);
  }

  const PRIME_INV: Word := 0xce96_5057_aff6_957b

  lemma PrimeInverse()
    ensures Inverses(PRIME, PRIME_INV)
  {
  }

  lemma XorReachedIs(q: nat, l: nat, b: Byte, r: nat)
    requires Shl(q, 7) + 127 < W64 && l < 128 && Allowed(b) && Xor(l, b) == r && r < 128
    ensures Reaches(Shl(q, 7) + l, Shl(q, 7) + r)
  {
    hide Bitwise, Shl, Hash;
    SevenBits();
    XorJoin(q, l, 0, b, 7);
    XorZero(q);
    ShlIsProduct(0, 7);
    XorReached(Shl(q, 7) + l, b);
  }

  lemma SevenBits()
    ensures Pow2(7) == 128
  {
    Pow2Small();
    assert Pow2(7) == 8 * Pow2(4);
  }

  /** Upper-case letters and their neighbours, XORed with what lies 32 above them. */
  lemma CaseBit(l: nat)
    requires 0x40 <= l < 0x60
    ensures Xor(l, l + 32) == 32 && Xor(32, l + 32) == l
  {
    hide Bitwise, Shl;
    var r := l - 64;
    Pow2Small();
    assert Pow2(5) == 2 * Pow2(4);
    ShlIsProduct(1, 5);
    ShlIsProduct(2, 5);
    ShlIsProduct(3, 5);
    XorJoin(2, r, 3, r, 5);
    XorJoin(1, 0, 3, r, 5);
    XorSelf(r);
    XorZero(r);
    SmallXors();
  }

  lemma SmallXors()
    ensures Xor(2, 3) == 1 && Xor(1, 3) == 2
  {
    XorBelow(0, 1, 1, 1);
    XorBelow(1, 0, 1, 1);
    XorSelf(1);
    XorZero(1);
  }

  /** The low seven bits can be cleared, and set. */
  lemma ClearedAndSet(q: nat, l: nat)
    requires Shl(q, 7) + 127 < W64 && l < 128
    ensures Reaches(Shl(q, 7) + l, Shl(q, 7)) && Reaches(Shl(q, 7), Shl(q, 7) + l)
  {
    hide Bitwise, Shl, Reaches;
    XorSelf(l);
    XorZero(l);
    if Allowed(l) {
      XorReachedIs(q, l, l, 0);
      XorReachedIs(q, 0, l, l);
    } else {
      CaseBit(l);
      XorSelf(32);
      XorZero(32);
      XorReachedIs(q, l, l + 32, 32);
      XorReachedIs(q, 32, 32, 0);
      XorReachedIs(q, 0, 32, 32);
      XorReachedIs(q, 32, l + 32, l);
      ReachesOn(Shl(q, 7) + l, Shl(q, 7) + 32, Shl(q, 7));
      ReachesOn(Shl(q, 7), Shl(q, 7) + 32, Shl(q, 7) + l);
    }
  }

  // ----- moving the other bits by an odd amount -----

  /** The prime without its low seven bits, and those shifted away. */
  const LEAP: Word := 0x100_0000_0180
  const ODD_LEAP: nat := 0x2_0000_0003

  /** Divide, set the low bit, multiply, and clear what comes down: a leap. */
  lemma Leap(v: Word)
    requires v % 128 == 0
    ensures Reaches(v, (v + LEAP) % W64) && (v + LEAP) % W64 % 128 == 0
  {
    hide Hash, Times64, Bitwise, Shl, Reaches, Pow2, Divider;
    var u := Hash(v, Divider());
    Divided(v);
    MultiplyReached(v);
    SetLowBit(u);
    ReachesOn(v, u, u + 1);
    MultiplyReached(u + 1);
    NextProduct(u, v);
    ReachesOn(v, u + 1, (v + PRIME) % W64);
    ClearLow(v);
    ReachesOn(v, (v + PRIME) % W64, (v + LEAP) % W64);
  }

  lemma SetLowBit(u: Word)
    requires u % 128 == 0
    ensures u + 1 < W64 && Reaches(u, u + 1)
  {
    hide Reaches, Shl;
    SevenBits();
    ShlIsProduct(u / 128, 7);
    ClearedAndSet(u / 128, 1);
  }

  lemma NextProduct(u: Word, v: Word)
    requires u + 1 < W64 && Times64(u, PRIME) == v
    ensures Times64(u + 1, PRIME) == (v + PRIME) % W64
  {
    ProductIs(u, PRIME);
    ProductIs(u + 1, PRIME);
    var q := u * PRIME / W64;
    assert (u + 1) * PRIME == v + PRIME + q * W64;
    AddMultiple(v + PRIME, q);
  }

  lemma ClearLow(v: Word)
    requires v % 128 == 0
    ensures Reaches((v + PRIME) % W64, (v + LEAP) % W64)
    ensures (v + LEAP) % W64 % 128 == 0
  {
    hide Reaches, Shl;
    var t := (v + LEAP) % W64;
    assert t % 128 == 0 && (v + PRIME) % W64 == t + 0x33;
    SevenBits();
    ShlIsProduct(t / 128, 7);
    ClearedAndSet(t / 128, 0x33);
  }

  lemma {:induction false} Leaps(v: Word, i: nat)
    requires v % 128 == 0
    ensures Reaches(v, (v + i * LEAP) % W64) && (v + i * LEAP) % W64 % 128 == 0
    decreases i
  {
    hide Reaches;
    if i == 0 {
      ReachesSame(v);
    } else {
      Leaps(v, i - 1);
      var x := v + (i - 1) * LEAP;
      Leap(x % W64);
      AddMod(x, LEAP);
      assert x + LEAP == v + i * LEAP;
      ReachesOn(v, x % W64, (v + i * LEAP) % W64);
    }
  }

  lemma AddMod(x: nat, y: nat)
    ensures (x % W64 + y) % W64 == (x + y) % W64
  {
    AddMultiple(x % W64 + y, x / W64);
  }

  /** Leaps go from any multiple of 128 to any other. */
  lemma LeapsReach(v: Word, t: Word)
    requires v % 128 == 0 && t % 128 == 0
    ensures Reaches(v, t)
  {
    hide Reaches, Low, Pow2, Times, Shl;
    var i := StepsReach(ODD_LEAP, v / 128, t / 128, 57);
    TimesIsProduct(i, ODD_LEAP);
    var x := v / 128 + i * ODD_LEAP;
    SameUnderShift(x, t / 128);
    assert 128 * x == v + i * LEAP;
    Leaps(v, i);
  }

  lemma SameUnderShift(x: nat, y: nat)
    requires Low(x, 57) == Low(y, 57)
    ensures 128 * x % W64 == 128 * y % W64
  {
    hide Low, Shl, Pow2;
    SevenBits();
    LowShl(x, 7, 64);
    LowShl(y, 7, 64);
    ShlIsProduct(x, 7);
    ShlIsProduct(y, 7);
    LowW64(128 * x);
    LowW64(128 * y);
  }

  // ----- every word is a tweak -----

  lemma AllReached(h: Word, k: Word)
    ensures Reaches(h, k)
  {
    hide Reaches, Shl;
    SevenBits();
    ShlIsProduct(h / 128, 7);
    ShlIsProduct(k / 128, 7);
    ClearedAndSet(h / 128, h % 128);
    ClearedAndSet(k / 128, k % 128);
    LeapsReach(h - h % 128, k - k % 128);
    ReachesOn(h, h - h % 128, k - k % 128);
    ReachesOn(h, k - k % 128, k);
  }

  /** Every word is the hash of some normal destination. */
  lemma TweakReaches(tweak: Word) returns (dest: Bytes)
    ensures Normal(dest) && TweakHost(dest) == tweak
  {
    hide Hash;
    AllReached(OFFSET, tweak);
    dest :| Normal(dest) && Hash(OFFSET, dest) == tweak;
    TweakIsHash(dest);
  }
}

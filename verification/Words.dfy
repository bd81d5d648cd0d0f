/** Unsigned machine words as natural numbers, with the bitwise operators of the
    Go source defined bit by bit and related to ordinary arithmetic. */
module Words {

  const W64: nat := 0x1_0000_0000_0000_0000
  const W128: nat := 0x1_0000_0000_0000_0000_0000_0000_0000_0000

  type Word = x: nat | x < W64 witness 0
  type Byte = x: nat | x < 256 witness 0

  function Pow2(n: nat): (p: nat)
    ensures p > 0
  {
    if n == 0 then 1 else 2 * Pow2(n - 1)
  }

  lemma Pow2Byte(n: nat)
    ensures Pow2(n + 8) == 256 * Pow2(n)
  {
    assert Pow2(n + 2) == 4 * Pow2(n);
    assert Pow2(n + 4) == 4 * Pow2(n + 2);
    assert Pow2(n + 6) == 4 * Pow2(n + 4);
    assert Pow2(n + 8) == 4 * Pow2(n + 6);
  }

  lemma PowZero()
    ensures Pow2(0) == 1
  {
  }

  lemma Pow2Values()
    ensures Pow2(8) == 256 && Pow2(16) == 65536 && Pow2(24) == 0x100_0000
    ensures Pow2(40) == 0x100_0000_0000
    ensures Pow2(64) == W64 && Pow2(128) == W128
  {
    Pow2Byte(0);
    Pow2Byte(8);
    Pow2Byte(16);
    Pow2Byte(24);
    Pow2Byte(32);
    Pow2Byte(40);
    Pow2Byte(48);
    Pow2Byte(56);
    Pow2Of128();
  }

  lemma Pow2Of128()
    requires Pow2(64) == W64
    ensures Pow2(128) == W128
  {
    Pow2Byte(64);
    Pow2Byte(72);
    Pow2Byte(80);
    Pow2Byte(88);
    Pow2Byte(96);
    Pow2Byte(104);
    Pow2Byte(112);
    Pow2Byte(120);
  }

  lemma Pow2Small()
    ensures Pow2(2) == 4 && Pow2(3) == 8 && Pow2(4) == 16 && Pow2(15) == 0x8000
  {
    Pow2Byte(0);
    Pow2Byte(8);
    assert Pow2(4) == 4 * Pow2(2);
    assert Pow2(16) == 2 * Pow2(15);
  }

  lemma {:induction false} Pow2Monotone(a: nat, b: nat)
    requires a <= b
    ensures Pow2(a) <= Pow2(b)
    ensures a < b ==> 2 * Pow2(a) <= Pow2(b)
    decreases b
  {
    if a < b {
      Pow2Monotone(a, b - 1);
    }
  }

  // ----- shifting, keeping the low bits, repeated addition -----

  /** `x << n` without truncation: x times 2^n. */
  function Shl(x: nat, n: nat): nat {
    if n == 0 then x else 2 * Shl(x, n - 1)
  }

  /** `x >> n`: the quotient of x by 2^n. */
  function Shr(x: nat, n: nat): nat
    decreases x, n
  {
    if n == 0 then x else Shr(x / 2, n - 1)
  }

  /** The low n bits of x: the remainder of x by 2^n. */
  function Low(x: nat, n: nat): nat
    decreases x, n
  {
    if n == 0 then 0 else x % 2 + 2 * Low(x / 2, n - 1)
  }

  /** The n-bit field of x whose least significant bit is bit lo. */
  function Field(x: nat, lo: nat, n: nat): nat { Low(Shr(x, lo), n) }

  /** n times s. */
  function Times(n: nat, s: nat): nat { if n == 0 then 0 else Times(n - 1, s) + s }

  lemma {:induction false} Split(x: nat, n: nat)
    ensures x == Shl(Shr(x, n), n) + Low(x, n)
    ensures Low(x, n) < Pow2(n)
    decreases n
  {
    if n > 0 {
      Split(x / 2, n - 1);
    }
  }

  /** The only way to split a number at bit n. */
  lemma {:induction false} SplitUnique(hi: nat, lo: nat, n: nat)
    requires lo < Pow2(n)
    ensures Shr(Shl(hi, n) + lo, n) == hi
    ensures Low(Shl(hi, n) + lo, n) == lo
    decreases n
  {
    if n > 0 {
      assert (Shl(hi, n) + lo) / 2 == Shl(hi, n - 1) + lo / 2;
      SplitUnique(hi, lo / 2, n - 1);
    }
  }

  lemma {:induction false} JoinBound(g: nat, m: nat, h: nat, n: nat)
    requires g < Pow2(m) && h < Pow2(n)
    ensures Shl(g, n) + h < Pow2(m + n)
    decreases n
  {
    if n > 0 {
      JoinBound(g, m, h / 2, n - 1);
    }
  }

  lemma {:induction false} ShlShl(x: nat, a: nat, b: nat)
    ensures Shl(Shl(x, a), b) == Shl(x, a + b)
    decreases b
  {
    if b > 0 {
      ShlShl(x, a, b - 1);
    }
  }

  lemma {:induction false} ShlAdd(x: nat, y: nat, n: nat)
    ensures Shl(x + y, n) == Shl(x, n) + Shl(y, n)
    decreases n
  {
    if n > 0 {
      ShlAdd(x, y, n - 1);
    }
  }

  lemma {:induction false} ShlOfPow2(m: nat, n: nat)
    ensures Shl(Pow2(m), n) == Pow2(m + n)
    decreases n
  {
    if n > 0 {
      ShlOfPow2(m, n - 1);
    }
  }

  lemma {:induction false} LowOfSmall(x: nat, n: nat)
    requires x < Pow2(n)
    ensures Low(x, n) == x && Shr(x, n) == 0
    decreases n
  {
    if n > 0 {
      LowOfSmall(x / 2, n - 1);
    }
  }

  /** Shl, Shr, Low and Times are the usual arithmetic. */
  lemma {:induction false} ShlIsProduct(x: nat, n: nat)
    ensures Shl(x, n) == x * Pow2(n)
    decreases n
  {
    if n > 0 {
      ShlIsProduct(x, n - 1);
      DoubleProduct(x, Pow2(n - 1));
    }
  }

  lemma ShlOne(n: nat)
    ensures Shl(1, n) == Pow2(n)
  {
    ShlIsProduct(1, n);
  }

  lemma DoubleProduct(x: nat, p: nat)
    ensures 2 * (x * p) == x * (2 * p)
  {
  }

  lemma MulAssoc(a: nat, b: nat, c: nat)
    ensures a * b * c == a * (b * c)
  {
  }

  lemma ShrLowAreDivMod(x: nat, n: nat)
    ensures Shr(x, n) == x / Pow2(n) && Low(x, n) == x % Pow2(n)
  {
    Split(x, n);
    ShlIsProduct(Shr(x, n), n);
    DivModUnique(x, Shr(x, n), Pow2(n), Low(x, n));
  }

  lemma DivModUnique(x: int, q: int, m: int, r: int)
    requires m > 0 && 0 <= r < m && x == q * m + r
    ensures x / m == q && x % m == r
  {
    assert x == x / m * m + x % m;
    SmallMultiple(x / m - q, m, x % m - r);
  }

  lemma SmallMultiple(d: int, m: int, e: int)
    requires m > 0 && d * m == -e && -m < e < m
    ensures d == 0
  {
  }

  lemma {:induction false} TimesIsProduct(n: nat, s: nat)
    ensures Times(n, s) == n * s
  {
    if n > 0 {
      TimesIsProduct(n - 1, s);
    }
  }

  lemma TimesComm(a: nat, b: nat)
    ensures Times(a, b) == Times(b, a)
  {
    TimesIsProduct(a, b);
    TimesIsProduct(b, a);
  }

  lemma LowW64(x: nat)
    ensures Low(x, 64) == x % W64 && Shr(x, 64) == x / W64
  {
    Pow2Values();
    ShrLowAreDivMod(x, 64);
  }

  lemma {:induction false} TimesSum(m: nat, n: nat, s: nat)
    ensures Times(m + n, s) == Times(m, s) + Times(n, s)
    decreases m
  {
    if m > 0 {
      TimesSum(m - 1, n, s);
    }
  }

  lemma {:induction false} TimesPow2(k: nat, s: nat)
    ensures Times(Pow2(k), s) == Shl(s, k)
    decreases k
  {
    if k > 0 {
      TimesPow2(k - 1, s);
      TimesSum(Pow2(k - 1), Pow2(k - 1), s);
    }
  }

  lemma {:induction false} LowLow(x: nat, n: nat, m: nat)
    requires n <= m
    ensures Low(Low(x, m), n) == Low(x, n)
    decreases n
  {
    if n > 0 {
      LowLow(x / 2, n - 1, m - 1);
      assert Low(x, m) / 2 == Low(x / 2, m - 1);
    }
  }

  lemma {:induction false} ShrShr(x: nat, a: nat, b: nat)
    ensures Shr(Shr(x, a), b) == Shr(x, a + b)
    decreases a
  {
    if a > 0 {
      ShrShr(x / 2, a - 1, b);
    }
  }

  /** Bits lo and up of the low m bits. */
  lemma {:induction false} ShrLow(x: nat, lo: nat, m: nat)
    requires lo <= m
    ensures Shr(Low(x, m), lo) == Low(Shr(x, lo), m - lo)
    decreases lo
  {
    if lo > 0 {
      assert Low(x, m) / 2 == Low(x / 2, m - 1);
      ShrLow(x / 2, lo - 1, m - 1);
    }
  }

  lemma {:induction false} LowShl(x: nat, n: nat, m: nat)
    requires n <= m
    ensures Low(Shl(x, n), m) == Shl(Low(x, m - n), n)
    decreases n
  {
    if n > 0 {
      LowShl(x, n - 1, m - 1);
    }
  }

  /** Numbers that differ by a multiple of 2^n have the same low n bits. */
  lemma {:induction false} LowAddMultiple(x: nat, q: nat, n: nat)
    ensures Low(x + Shl(q, n), n) == Low(x, n)
    ensures Shr(x + Shl(q, n), n) == Shr(x, n) + q
    decreases n
  {
    if n > 0 {
      assert (x + Shl(q, n)) / 2 == x / 2 + Shl(q, n - 1);
      LowAddMultiple(x / 2, q, n - 1);
    }
  }

  lemma LowAddLeft(a: nat, b: nat, n: nat)
    ensures Low(a + b, n) == Low(Low(a, n) + b, n)
  {
    Split(a, n);
    LowAddMultiple(Low(a, n) + b, Shr(a, n), n);
  }

  lemma LowAdd(a: nat, b: nat, n: nat)
    ensures Low(a + b, n) == Low(Low(a, n) + Low(b, n), n)
  {
    LowAddLeft(a, b, n);
    LowAddLeft(b, Low(a, n), n);
  }

  lemma LowNothing(x: nat)
    ensures Low(x, 0) == 0
  {
  }

  lemma LowUnfold(x: nat, n: nat)
    requires n > 0
    ensures Low(x, n) == x % 2 + 2 * Low(x / 2, n - 1)
  {
  }

  lemma LowStep(x: nat, n: nat)
    requires n > 0
    ensures Low(x, n) % 2 == x % 2 && Low(x, n) / 2 == Low(x / 2, n - 1)
  {
    hide Pow2;
    BitOnTop(x % 2, Low(x / 2, n - 1));
  }

  lemma BitOnTop(b: nat, y: nat)
    requires b < 2
    ensures (b + 2 * y) % 2 == b && (b + 2 * y) / 2 == y
  {
  }

  lemma {:induction false} LowTimes(i: nat, s: nat, n: nat)
    ensures Low(Times(i, s), n) == Low(Times(i, Low(s, n)), n)
    decreases i
  {
    hide Low;
    if i > 0 {
      LowTimes(i - 1, s, n);
      LowAdd(Times(i - 1, s), s, n);
      LowAddLeft(Times(i - 1, Low(s, n)), Low(s, n), n);
    }
  }

  // ----- single bits -----

  predicate Bit(x: nat, k: nat)
    decreases x, k
  {
    if k == 0 then x % 2 == 1 else Bit(x / 2, k - 1)
  }

  function B2N(b: bool): nat { if b then 1 else 0 }

  lemma {:induction false} BitZero(k: nat)
    ensures !Bit(0, k)
  {
    if k > 0 {
      BitZero(k - 1);
    }
  }

  lemma {:induction false} BitShr(x: nat, n: nat, k: nat)
    ensures Bit(Shr(x, n), k) == Bit(x, n + k)
    decreases n
  {
    if n > 0 {
      BitShr(x / 2, n - 1, k);
    }
  }

  lemma {:induction false} BitLow(x: nat, n: nat, k: nat)
    ensures Bit(Low(x, n), k) == (k < n && Bit(x, k))
    decreases n
  {
    if n == 0 {
      BitZero(k);
    } else if k > 0 {
      assert Low(x, n) / 2 == Low(x / 2, n - 1);
      BitLow(x / 2, n - 1, k - 1);
    }
  }

  lemma BitField(x: nat, lo: nat, n: nat, k: nat)
    ensures Bit(Field(x, lo, n), k) == (k < n && Bit(x, lo + k))
  {
    BitLow(Shr(x, lo), n, k);
    BitShr(x, lo, k);
  }

  /** The bits of a number put together from a high and a low part. */
  lemma BitSplit(hi: nat, lo: nat, n: nat, k: nat)
    requires lo < Pow2(n)
    ensures Bit(Shl(hi, n) + lo, k) == if k < n then Bit(lo, k) else Bit(hi, k - n)
  {
    var x := Shl(hi, n) + lo;
    SplitUnique(hi, lo, n);
    if k < n {
      BitLow(x, n, k);
    } else {
      BitShr(x, n, k - n);
    }
  }

  lemma {:induction false} BitExt(a: nat, b: nat, n: nat)
    requires a < Pow2(n) && b < Pow2(n)
    requires forall k | 0 <= k < n :: Bit(a, k) == Bit(b, k)
    ensures a == b
  {
    if n > 0 {
      assert Bit(a, 0) == Bit(b, 0);
      forall k | 0 <= k < n - 1
        ensures Bit(a / 2, k) == Bit(b / 2, k)
      {
        assert Bit(a, k + 1) == Bit(b, k + 1);
      }
      BitExt(a / 2, b / 2, n - 1);
    }
  }

  /** 2^n - 1 has exactly the bits below n. */
  lemma {:induction false} BitOfMask(n: nat, k: nat)
    ensures Bit(Pow2(n) - 1, k) == (k < n)
    decreases n
  {
    if n == 0 {
      BitZero(k);
    } else if k > 0 {
      assert (Pow2(n) - 1) / 2 == Pow2(n - 1) - 1;
      BitOfMask(n - 1, k - 1);
    }
  }

  lemma {:induction false} BitOfPow2(n: nat, k: nat)
    ensures Bit(Pow2(n), k) == (k == n)
    decreases n
  {
    if n == 0 {
      if k > 0 {
        BitZero(k - 1);
      }
    } else if k > 0 {
      BitOfPow2(n - 1, k - 1);
    }
  }

  // ----- bitwise operators -----

  datatype BitOp = AND | OR | XOR | ANDNOT

  predicate Apply(op: BitOp, x: bool, y: bool) {
    match op
    case AND => x && y
    case OR => x || y
    case XOR => x != y
    case ANDNOT => x && !y
  }

  function Bitwise(op: BitOp, a: nat, b: nat): nat
    decreases a + b
  {
    if a == 0 && b == 0 then 0
    else B2N(Apply(op, a % 2 == 1, b % 2 == 1)) + 2 * Bitwise(op, a / 2, b / 2)
  }

  lemma {:induction false} BitwiseBit(op: BitOp, a: nat, b: nat, k: nat)
    ensures Bit(Bitwise(op, a, b), k) == Apply(op, Bit(a, k), Bit(b, k))
    decreases k
  {
    if a == 0 && b == 0 {
      BitZero(k);
    } else {
      BitOfPair(B2N(Apply(op, a % 2 == 1, b % 2 == 1)), Bitwise(op, a / 2, b / 2), k);
      if k > 0 {
        BitwiseBit(op, a / 2, b / 2, k - 1);
      }
    }
  }

  lemma {:induction false} BitwiseBound(op: BitOp, a: nat, b: nat, n: nat)
    requires a < Pow2(n) && b < Pow2(n)
    ensures Bitwise(op, a, b) < Pow2(n)
  {
    if n > 0 {
      BitwiseBound(op, a / 2, b / 2, n - 1);
    }
  }

  function And(a: nat, b: nat): nat { Bitwise(AND, a, b) }
  function Or(a: nat, b: nat): nat { Bitwise(OR, a, b) }
  function Xor(a: nat, b: nat): nat { Bitwise(XOR, a, b) }
  function AndNot(a: nat, b: nat): nat { Bitwise(ANDNOT, a, b) }

  lemma BitwiseWord(op: BitOp, a: Word, b: Word)
    ensures Bitwise(op, a, b) < W64
  {
    Pow2Values();
    BitwiseBound(op, a, b, 64);
  }

  function And64(a: Word, b: Word): Word { BitwiseWord(AND, a, b); And(a, b) }
  function Or64(a: Word, b: Word): Word { BitwiseWord(OR, a, b); Or(a, b) }
  function Xor64(a: Word, b: Word): Word { BitwiseWord(XOR, a, b); Xor(a, b) }

  /** Wrapping addition and subtraction of 64-bit words. */
  function Add64(x: Word, y: Word): Word { if x + y < W64 then x + y else x + y - W64 }
  function Sub64(x: Word, y: Word): Word { if x >= y then x - y else x + W64 - y }

  /** `x << n` and `^x` on 64-bit words. */
  function Shl64(x: Word, n: nat): Word { Pow2Values(); Split(Shl(x, n), 64); Low(Shl(x, n), 64) }
  function Not64(x: Word): Word { W64 - 1 - x }

  /** Masking with 2^n - 1 keeps the low n bits. */
  lemma {:induction false} AndMask(x: nat, n: nat)
    ensures And(x, Pow2(n) - 1) == Low(x, n)
    decreases n
  {
    if n == 0 {
      AndZero(x);
    } else {
      assert (Pow2(n) - 1) / 2 == Pow2(n - 1) - 1;
      AndMask(x / 2, n - 1);
    }
  }

  lemma {:induction false} AndZero(x: nat)
    ensures And(x, 0) == 0
  {
    if x > 0 {
      AndZero(x / 2);
    }
  }

  /** Or-ing a multiple of 2^n with a number below 2^n is adding them. */
  lemma {:induction false} OrDisjoint(hi: nat, lo: nat, n: nat)
    requires lo < Pow2(n)
    ensures Or(Shl(hi, n), lo) == Shl(hi, n) + lo
    decreases n
  {
    if n == 0 {
      OrZero(hi);
    } else {
      OrDisjoint(hi, lo / 2, n - 1);
    }
  }

  lemma {:induction false} OrZero(a: nat)
    ensures Or(a, 0) == a
  {
    if a > 0 {
      OrZero(a / 2);
    }
  }

  lemma MaskHalves(m: nat)
    requires m > 0
    ensures (Pow2(m) - 1) % 2 == 1 && (Pow2(m) - 1) / 2 == Pow2(m - 1) - 1
  {
  }

  lemma {:induction false} LowOfMask(m: nat, n: nat)
    requires n <= m
    ensures Low(Pow2(m) - 1, n) == Pow2(n) - 1
    decreases n
  {
    hide Low;
    if n == 0 {
      LowNothing(Pow2(m) - 1);
    } else {
      LowUnfold(Pow2(m) - 1, n);
      MaskHalves(m);
      LowOfMask(m - 1, n - 1);
    }
  }

  lemma {:induction false} ShrOfMask(w: nat, n: nat)
    requires n <= w
    ensures Shr(Pow2(w) - 1, n) == Pow2(w - n) - 1
    decreases n
  {
    if n > 0 {
      assert (Pow2(w) - 1) / 2 == Pow2(w - 1) - 1;
      ShrOfMask(w - 1, n - 1);
    }
  }

  /** Any field of 2^w - 1 is all ones. */
  lemma MaskField(w: nat, lo: nat, n: nat)
    requires lo + n <= w
    ensures Field(Pow2(w) - 1, lo, n) == Pow2(n) - 1
  {
    hide Pow2, Low, Shr;
    ShrOfMask(w, lo);
    LowOfMask(w - lo, n);
  }

  lemma {:induction false} AndHighMask(x: nat, m: nat, n: nat)
    requires x < Pow2(m + n)
    ensures And(x, Shl(Pow2(m) - 1, n)) == Shl(Shr(x, n), n)
    decreases n
  {
    if n == 0 {
      AndMask(x, m);
      LowOfSmall(x, m);
    } else {
      AndHighMask(x / 2, m, n - 1);
    }
  }

  lemma HighMask(n: nat)
    requires n <= 64
    ensures Low(Shl(Pow2(64) - 1, n), 64) == Shl(Pow2(64 - n) - 1, n)
  {
    hide Pow2, Low;
    LowShl(Pow2(64) - 1, n, 64);
    LowOfMask(64, 64 - n);
  }

  /** `x & (^0 << n)` clears the low n bits. */
  lemma AndHigh(x: Word, n: nat)
    requires n <= 64
    ensures And(x, Shl64(W64 - 1, n)) == Shl(Shr(x, n), n)
  {
    hide Pow2, Low, Shr, Bitwise;
    Pow2Values();
    HighMask(n);
    AndHighMask(x, 64 - n, n);
  }

  /** `(x >> k) & 1` reads bit k. */
  lemma AndOne(x: nat, k: nat)
    ensures And(Shr(x, k), 1) == B2N(Bit(x, k))
  {
    AndMask(Shr(x, k), 1);
    BitShr(x, k, 0);
    assert Low(Shr(x, k), 1) == Shr(x, k) % 2;
  }

  lemma XorOneBit(a: bool, b: bool)
    ensures Xor(B2N(a), B2N(b)) == B2N(a != b)
  {
  }

  lemma {:induction false} XorComm(a: nat, b: nat)
    ensures Xor(a, b) == Xor(b, a)
    decreases a + b
  {
    if a != 0 || b != 0 {
      XorComm(a / 2, b / 2);
    }
  }

  lemma {:induction false} XorAssoc(a: nat, b: nat, c: nat)
    ensures Xor(Xor(a, b), c) == Xor(a, Xor(b, c))
    decreases a + b + c
  {
    hide Bitwise;
    if a == 0 && b == 0 && c == 0 {
      XorZero(0);
    } else {
      XorAssoc(a / 2, b / 2, c / 2);
      XorBelow(a % 2, a / 2, b % 2, b / 2);
      XorBelow(b % 2, b / 2, c % 2, c / 2);
      XorBelow((a % 2 + b % 2) % 2, Xor(a / 2, b / 2), c % 2, c / 2);
      XorBelow(a % 2, a / 2, (b % 2 + c % 2) % 2, Xor(b / 2, c / 2));
    }
  }

  lemma {:induction false} XorZero(a: nat)
    ensures Xor(a, 0) == a && Xor(0, a) == a
  {
    if a > 0 {
      XorZero(a / 2);
    }
  }

  lemma {:induction false} XorSelf(a: nat)
    ensures Xor(a, a) == 0
  {
    if a > 0 {
      XorSelf(a / 2);
    }
  }

  lemma {:induction false} XorCancel(a: nat, b: nat)
    ensures Xor(Xor(a, b), b) == a
    decreases a + b
  {
    if a != 0 || b != 0 {
      XorCancel(a / 2, b / 2);
      assert Xor(a, b) == B2N((a % 2 == 1) != (b % 2 == 1)) + 2 * Xor(a / 2, b / 2);
    }
  }

  lemma {:induction false} XorComplement(h: nat, n: nat)
    requires h < Pow2(n)
    ensures Xor(Pow2(n) - 1, h) == Pow2(n) - 1 - h
    decreases n
  {
    hide Bitwise;
    if n == 0 {
      XorZero(0);
    } else {
      XorBelow(1, Pow2(n - 1) - 1, h % 2, h / 2);
      XorComplement(h / 2, n - 1);
    }
  }

  /** The lowest bit apart from the rest. */
  lemma XorBelow(x: nat, p: nat, y: nat, q: nat)
    requires x < 2 && y < 2
    ensures Xor(x + 2 * p, y + 2 * q) == (x + y) % 2 + 2 * Xor(p, q)
  {
    BitOnTop(x, p);
    BitOnTop(y, q);
  }

  /** A high and a low part apart. */
  lemma {:induction false} XorJoin(h: nat, l: nat, k: nat, m: nat, n: nat)
    requires l < Pow2(n) && m < Pow2(n)
    ensures Xor(Shl(h, n) + l, Shl(k, n) + m) == Shl(Xor(h, k), n) + Xor(l, m)
    decreases n
  {
    if n > 0 {
      XorJoin(h, l / 2, k, m / 2, n - 1);
    }
  }

  // ----- bit reversal -----

  /** The low w bits of x in the opposite order. */
  function Reverse(x: nat, w: nat): nat {
    if w == 0 then 0 else B2N(Bit(x, w - 1)) + 2 * Reverse(x, w - 1)
  }

  lemma BitOfPair(b: nat, y: nat, k: nat)
    requires b < 2
    ensures Bit(b + 2 * y, k) == if k == 0 then b == 1 else Bit(y, k - 1)
  {
    BitOnTop(b, y);
  }

  lemma {:induction false} ReverseBit(x: nat, w: nat, k: nat)
    ensures Reverse(x, w) < Pow2(w)
    ensures Bit(Reverse(x, w), k) == (k < w && Bit(x, w - 1 - k))
    decreases w
  {
    hide Bit;
    if w == 0 {
      BitZero(k);
    } else {
      BitOfPair(B2N(Bit(x, w - 1)), Reverse(x, w - 1), k);
      ReverseBit(x, w - 1, if k > 0 then k - 1 else 0);
    }
  }

  lemma {:induction false} ReverseTop(x: nat, w: nat)
    requires w > 0
    ensures Reverse(x, w) == (if x % 2 == 1 then Pow2(w - 1) else 0) + Reverse(x / 2, w - 1)
    decreases w
  {
    if w > 1 {
      ReverseTop(x, w - 1);
    }
  }

  lemma {:induction false} ReverseComplement(h: nat, n: nat)
    requires h < Pow2(n)
    ensures Reverse(Pow2(n) - 1 - h, n) == Pow2(n) - 1 - Reverse(h, n)
    decreases n
  {
    hide Low;
    if n > 0 {
      ReverseTop(h, n);
      ReverseTop(Pow2(n) - 1 - h, n);
      assert (Pow2(n) - 1 - h) / 2 == Pow2(n - 1) - 1 - h / 2;
      ReverseComplement(h / 2, n - 1);
    }
  }

  lemma {:induction false} ReverseOfZero(n: nat)
    ensures Reverse(0, n) == 0
  {
    if n > 0 {
      BitZero(n - 1);
      ReverseOfZero(n - 1);
    }
  }

  /** The halves of a number trade places. */
  lemma {:induction false} ReverseJoin(h: nat, l: nat, m: nat, n: nat)
    requires l < Pow2(n)
    ensures Reverse(Shl(h, n) + l, m + n) == Shl(Reverse(l, n), m) + Reverse(h, m)
    decreases n
  {
    hide Reverse;
    if n == 0 {
      ReverseNothing(l);
      ShlIsProduct(0, m);
    } else {
      var x := Shl(h, n) + l;
      assert x % 2 == l % 2 && x / 2 == Shl(h, n - 1) + l / 2;
      ReverseTop(x, m + n);
      ReverseTop(l, n);
      ReverseJoin(h, l / 2, m, n - 1);
      ShlOfPow2(n - 1, m);
      ShlAdd(Pow2(n - 1), Reverse(l / 2, n - 1), m);
    }
  }

  lemma ReverseNothing(x: nat)
    ensures Reverse(x, 0) == 0
  {
  }

  /** Reversing twice gives the low bits back. */
  lemma ReverseInvolution(x: nat, w: nat)
    ensures Reverse(Reverse(x, w), w) == Low(x, w)
  {
    var y := Reverse(x, w);
    ReverseBit(y, w, 0);
    Split(x, w);
    forall k | 0 <= k < w
      ensures Bit(Reverse(y, w), k) == Bit(Low(x, w), k)
    {
      ReverseBit(y, w, k);
      ReverseBit(x, w, w - 1 - k);
      BitLow(x, w, k);
    }
    BitExt(Reverse(y, w), Low(x, w), w);
  }

  /** A field of the reversal is the reversal of the mirrored field. */
  lemma ReverseField(x: nat, w: nat, lo: nat, n: nat)
    requires lo + n <= w
    ensures Field(Reverse(x, w), lo, n) == Reverse(Field(x, w - lo - n, n), n)
  {
    var y := Field(x, w - lo - n, n);
    var l := Field(Reverse(x, w), lo, n);
    ReverseBit(y, n, 0);
    Split(Shr(Reverse(x, w), lo), n);
    forall k | 0 <= k < n
      ensures Bit(l, k) == Bit(Reverse(y, n), k)
    {
      BitField(Reverse(x, w), lo, n, k);
      ReverseBit(x, w, lo + k);
      ReverseBit(y, n, k);
      BitField(x, w - lo - n, n, n - 1 - k);
    }
    BitExt(l, Reverse(y, n), n);
  }

  /** A field of an exclusive or is the exclusive or of the fields. */
  lemma XorField(a: nat, b: nat, lo: nat, n: nat)
    ensures Field(Xor(a, b), lo, n) == Xor(Field(a, lo, n), Field(b, lo, n))
  {
    var fa, fb := Field(a, lo, n), Field(b, lo, n);
    var l := Field(Xor(a, b), lo, n);
    Split(Shr(a, lo), n);
    Split(Shr(b, lo), n);
    Split(Shr(Xor(a, b), lo), n);
    BitwiseBound(XOR, fa, fb, n);
    forall k | 0 <= k < n
      ensures Bit(l, k) == Bit(Xor(fa, fb), k)
    {
      BitField(Xor(a, b), lo, n, k);
      BitwiseBit(XOR, a, b, lo + k);
      BitwiseBit(XOR, fa, fb, k);
      BitField(a, lo, n, k);
      BitField(b, lo, n, k);
    }
    BitExt(l, Xor(fa, fb), n);
  }
}

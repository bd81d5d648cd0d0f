/** The exact rotation cycle of a pool: two-word counter, stride and mask, and the
    bit loop that turns a counter into an address. */
module Streams {
  import opened Words
  import opened Addresses
  import opened Mixer
  import opened Cycles
  import opened Hygiene
  import Evaluation

  datatype Pool = Pool(prefix: Addr, bits: nat, seed: Word) {
    predicate Valid() { bits <= 128 }
  }

  /** A pool with its prefix length clamped to 0..128. */
  function NewPool(bits: int, prefix: Addr, seed: Word): (p: Pool)
    ensures p.Valid() && p.prefix == prefix && p.seed == seed
    ensures 0 <= bits <= 128 ==> p.bits == bits
    ensures bits < 0 ==> p.bits == 0
    ensures bits > 128 ==> p.bits == 128
  {
    Pool(prefix, if bits < 0 then 0 else if bits > 128 then 128 else bits, seed)
  }

  /** A cycle together with its counter. */
  datatype CycleState = CycleState(cycle: Cycle, pos: nat) {
    predicate Valid() { cycle.Valid() && pos < W128 }
  }

  /** One word of a stream's keyed material. */
  function Material(p: Pool, domain: Word, tweak: Word, salt: Word): Word {
    SplitMix64(Xor64(Xor64(Xor64(p.seed, domain), tweak), salt))
  }

  function Join(hi: Word, lo: Word): (n: nat)
    ensures n < W128
  {
    hi * W64 + lo
  }

  /** How many bits of the mask pair are kept. */
  function MaskBits(bits: nat): nat
    requires bits <= 128
  {
    if bits < 64 then 128 - bits else 64
  }

  /** The cycle made of two words of stride material and two of mask material. */
  function KeyedCycle(p: Pool, sHi: Word, sLo: Word, mHi: Word, mLo: Word): (c: Cycle)
    requires p.Valid()
    ensures c.Valid() && c.prefix == p.prefix && c.bits == p.bits
  {
    OrOne(sLo);
    MaterialBound(mHi, mLo, MaskBits(p.bits));
    Cycle(p.prefix, p.bits, Join(sHi, Or64(sLo, 1)), Low(Join(mHi, mLo), MaskBits(p.bits)))
  }

  /** Where the cycle of (domain, tweak) over a pool starts: a function of its key. */
  function Origin(p: Pool, domain: Word, tweak: Word): (s: CycleState)
    requires p.Valid()
    ensures s.Valid() && s.cycle.prefix == p.prefix && s.cycle.bits == p.bits
  {
    CycleState(KeyedCycle(p, Material(p, domain, tweak, 0x12), Material(p, domain, tweak, 0x13),
                             Material(p, domain, tweak, 0x14), Material(p, domain, tweak, 0x15)),
               Join(Material(p, domain, tweak, 0x10), Material(p, domain, tweak, 0x11)))
  }

  /** The word that a key and a salt are mixed to. */
  ghost predicate MixedFrom(p: Pool, domain: Word, tweak: Word, salt: Word, m: Word) {
    Evaluation.Mixes(Xor64(Xor64(Xor64(p.seed, domain), tweak), salt), m)
  }

  lemma MaterialIsMixed(p: Pool, domain: Word, tweak: Word, salt: Word)
    ensures MixedFrom(p, domain, tweak, salt, Material(p, domain, tweak, salt))
  {
    hide Evaluation.Mixes, SplitMix64, Bitwise;
    Evaluation.MixesIff(Xor64(Xor64(Xor64(p.seed, domain), tweak), salt), Material(p, domain, tweak, salt));
  }

  /** A stream's start is mixed from salts 0x10 and 0x11 of its key, its stride from 0x12 and,
      made odd, 0x13, its mask from 0x14 and 0x15, cut to the host bits or to one word. */
  lemma OriginIsMixed(p: Pool, domain: Word, tweak: Word) returns (w: seq<Word>)
    requires p.Valid()
    ensures |w| == 6 && forall i | 0 <= i < 6 :: MixedFrom(p, domain, tweak, 0x10 + i, w[i])
    ensures var s := Origin(p, domain, tweak);
            && s.pos == Join(w[0], w[1])
            && s.cycle.stride == Join(w[2], w[3]) + (if w[3] % 2 == 1 then 0 else 1)
            && s.cycle.mask == Low(Join(w[4], w[5]), if p.bits < 64 then 128 - p.bits else 64)
  {
    hide MixedFrom, Material, Bitwise, Low, Pow2;
    w := seq(6, i requires 0 <= i < 6 => Material(p, domain, tweak, 0x10 + i));
    forall i | 0 <= i < 6
      ensures MixedFrom(p, domain, tweak, 0x10 + i, w[i])
    {
      MaterialIsMixed(p, domain, tweak, 0x10 + i);
    }
    OrOneIs(w[3]);
  }

  lemma OrOneIs(x: Word)
    ensures Or64(x, 1) == if x % 2 == 1 then x else x + 1
  {
    hide Pow2, Low, Shl, Shr;
    OrZero(x / 2);
    assert Or(x, 1) == 1 + 2 * Or(x / 2, 0);
  }

  /** `x | 1` is odd. */
  lemma OrOne(x: Word)
    ensures Or64(x, 1) % 2 == 1
  {
  }

  lemma MaterialBound(hi: Word, lo: Word, n: nat)
    requires n <= 128
    ensures Low(Join(hi, lo), n) < W128
  {
    Pow2Values();
    Split(Join(hi, lo), n);
    Pow2Monotone(n, 128);
  }

  lemma BitInByte(x: nat, shift: nat, k: nat)
    ensures Bit(Or(x, Pow2(shift)), k) == (k == shift || Bit(x, k))
    ensures Bit(AndNot(x, Pow2(shift)), k) == (k != shift && Bit(x, k))
  {
    BitwiseBit(OR, x, Pow2(shift), k);
    BitwiseBit(ANDNOT, x, Pow2(shift), k);
    BitOfPow2(shift, k);
  }

  lemma ByteBound(x: Byte, shift: nat)
    requires shift < 8
    ensures Or(x, Pow2(shift)) < 256 && AndNot(x, Pow2(shift)) < 256
  {
    Pow2Values();
    Pow2Monotone(shift, 8);
    BitwiseBound(OR, x, Pow2(shift), 8);
    BitwiseBound(ANDNOT, x, Pow2(shift), 8);
  }

  /** Writes bit v at address bit `bit`. */
  method SetAddrBit(b: array<Byte>, bit: nat, v: nat)
    requires bit < 8 * b.Length
    modifies b
    ensures forall j | 0 <= j < 8 * b.Length ::
              AddrBit(b[..], j) == if j == bit then v == 1 else old(AddrBit(b[..], j))
  {
    var i := bit / 8;
    var shift := 7 - bit % 8;
    ghost var was := b[i];
    ByteBound(was, shift);
    if v == 1 {
      b[i] := Or(b[i], Pow2(shift));
    } else {
      b[i] := AndNot(b[i], Pow2(shift));
    }
    forall j | 0 <= j < 8 * b.Length
      ensures AddrBit(b[..], j) == if j == bit then v == 1 else old(AddrBit(b[..], j))
    {
      if j / 8 == i {
        BitInByte(was, shift, 7 - j % 8);
      }
    }
  }

  class Stream {
    const prefix: Addr
    const bits: nat
    const width: nat
    const strHi: Word
    const strLo: Word
    const mskHi: Word
    const mskLo: Word
    var posHi: Word
    var posLo: Word

    ghost predicate Valid() {
      bits <= 128 && width == 128 - bits && strLo % 2 == 1
    }

    ghost function TheCycle(): (c: Cycle)
      requires Valid()
      ensures c.Valid()
    {
      Cycle(prefix, bits, Join(strHi, strLo), Join(mskHi, mskLo))
    }

    /** The abstract value of the stream. */
    ghost function State(): (s: CycleState)
      requires Valid()
      reads this
      ensures s.Valid()
    {
      CycleState(TheCycle(), Join(posHi, posLo))
    }

    /** NewStream: all material derives from the pool seed, the domain and the tweak. */
    constructor (p: Pool, domain: Word, tweak: Word)
      requires p.Valid()
      ensures Valid() && State() == Origin(p, domain, tweak)
      ensures MixedFrom(p, domain, tweak, 0x10, posHi) && MixedFrom(p, domain, tweak, 0x11, posLo)
      ensures MixedFrom(p, domain, tweak, 0x12, strHi) && MixedFrom(p, domain, tweak, 0x15, mskLo)
    {
      hide SplitMix64, Pow2, Low, Shl, Bitwise, MixedFrom;
      prefix := p.prefix;
      bits := p.bits;
      width := 128 - p.bits;
      posHi := Material(p, domain, tweak, 0x10);
      posLo := Material(p, domain, tweak, 0x11);
      strHi := Material(p, domain, tweak, 0x12);
      strLo := Or64(Material(p, domain, tweak, 0x13), 1);
      OrOne(Material(p, domain, tweak, 0x13));
      var hi := Material(p, domain, tweak, 0x14);
      var lo := Material(p, domain, tweak, 0x15);
      mskLo := lo;
      if 128 - p.bits >= 128 {
        mskHi := hi;
      } else if 128 - p.bits > 64 {
        mskHi := And64(hi, Sub64(Shl64(1, 64 - p.bits), 1));
      } else {
        mskHi := 0;
      }
      new;
      ConstrainedMask(p.bits, hi, lo, mskHi);
      MaterialIsMixed(p, domain, tweak, 0x10);
      MaterialIsMixed(p, domain, tweak, 0x11);
      MaterialIsMixed(p, domain, tweak, 0x12);
      MaterialIsMixed(p, domain, tweak, 0x15);
    }

    /** One stride step: a 128-bit add with carry. */
    method Advance()
      requires Valid()
      modifies this`posHi, this`posLo
      ensures State() == CycleState(TheCycle(), PosAfter(TheCycle(), old(State().pos), 1))
    {
      var lo := Add64(posLo, strLo);
      var carry := if lo < posLo then 1 else 0;
      AddWithCarry(posHi, posLo, strHi, strLo);
      posLo := lo;
      posHi := Add64(posHi, Add64(strHi, carry));
    }

    /** The bit loop computes the arithmetic address. */
    method At(hi: Word, lo: Word) returns (ip: Addr)
      requires Valid()
      ensures ip == AddrAt(TheCycle(), Join(hi, lo))
    {
      var addr := new Byte[16](i requires 0 <= i < 16 => prefix[i]);
      assert addr[..] == prefix;
      for k := 0 to width
        invariant forall j | 0 <= j < 128 ::
                    AddrBit(addr[..], j) == if bits <= j < bits + k
                                            then Bit(Join(hi, lo), j - bits) != Bit(Join(mskHi, mskLo), 127 - j)
                                            else AddrBit(prefix, j)
      {
        var ebit := if k < 64 then And(Shr(lo, k), 1) else And(Shr(hi, k - 64), 1);
        var j := width - 1 - k;
        var mbit := if j < 64 then And(Shr(mskLo, j), 1) else And(Shr(mskHi, j - 64), 1);
        JoinBit(hi, lo, k);
        JoinBit(mskHi, mskLo, j);
        XorOneBit(Bit(Join(hi, lo), k), Bit(Join(mskHi, mskLo), j));
        SetAddrBit(addr, bits + k, Xor(ebit, mbit));
      }
      ip := addr[..];
      forall j | 0 <= j < 128
        ensures AddrBit(ip, j) == AddrBit(AddrAt(TheCycle(), Join(hi, lo)), j)
      {
        AddrBitAt(TheCycle(), Join(hi, lo), j);
      }
      AddrExt(ip, AddrAt(TheCycle(), Join(hi, lo)));
    }

    /** The next address: skips flagged positions within the bound, then moves past
        the one returned. */
    method Next() returns (ip: Addr, skipped: nat)
      requires Valid()
      modifies this`posHi, this`posLo
      ensures skipped == Skips(TheCycle(), old(State().pos), MAX_CYCLE_SKIPS)
      ensures ip == AddrAt(TheCycle(), DrawPos(TheCycle(), old(State().pos)))
      ensures State() == CycleState(TheCycle(), PosAfter(TheCycle(), old(State().pos), skipped + 1))
    {
      hide NeedsHygiene, FlaggedAt, AddrAt, PosAfter, Pow2;
      ghost var c, start := TheCycle(), State().pos;
      ip := At(posHi, posLo);
      skipped := 0;
      PosAfterZero(c, start);
      FlaggedAtMeaning(c, start);
      while skipped < MAX_CYCLE_SKIPS && NeedsHygiene(width, ip)
        invariant skipped <= MAX_CYCLE_SKIPS
        invariant State().pos == PosAfter(c, start, skipped)
        invariant ip == AddrAt(c, State().pos)
        invariant NeedsHygiene(width, ip) <==> FlaggedAt(c, State().pos)
        invariant Skips(c, start, MAX_CYCLE_SKIPS)
               == skipped + Skips(c, State().pos, MAX_CYCLE_SKIPS - skipped)
      {
        PosAfterSum(c, start, skipped, 1);
        Advance();
        ip := At(posHi, posLo);
        FlaggedAtMeaning(c, State().pos);
        skipped := skipped + 1;
      }
      PosAfterSum(c, start, skipped, 1);
      Advance();
    }
  }

  lemma JoinBit(hi: Word, lo: Word, k: nat)
    requires k < 128
    ensures Bit(Join(hi, lo), k) == if k < 64 then Bit(lo, k) else Bit(hi, k - 64)
    ensures k < 64 ==> And(Shr(lo, k), 1) == B2N(Bit(Join(hi, lo), k))
    ensures k >= 64 ==> And(Shr(hi, k - 64), 1) == B2N(Bit(Join(hi, lo), k))
  {
    hide Pow2, Bit, Bitwise;
    Pow2Values();
    WordShift(hi);
    BitSplit(hi, lo, 64, k);
    if k < 64 {
      AndOne(lo, k);
    } else {
      AndOne(hi, k - 64);
    }
  }

  lemma AddWithCarry(hi: Word, lo: Word, sHi: Word, sLo: Word)
    ensures var l := Add64(lo, sLo);
            Join(Add64(hi, Add64(sHi, if l < lo then 1 else 0)), l)
            == Low(Join(hi, lo) + Times(1, Join(sHi, sLo)), 128)
  {
    var x := Join(hi, lo) + Join(sHi, sLo);
    assert Times(1, Join(sHi, sLo)) == Join(sHi, sLo);
    CarriedSum(hi, lo, sHi, sLo);
    WrapSum(x);
  }

  lemma CarriedSum(hi: Word, lo: Word, sHi: Word, sLo: Word)
    ensures var l, x := Add64(lo, sLo), Join(hi, lo) + Join(sHi, sLo);
            Join(Add64(hi, Add64(sHi, if l < lo then 1 else 0)), l) == if x < W128 then x else x - W128
  {
  }

  lemma WrapSum(x: nat)
    requires x < 2 * W128
    ensures Low(x, 128) == if x < W128 then x else x - W128
  {
    hide Pow2, Low, Shl;
    Pow2Values();
    if x < W128 {
      LowOfSmall(x, 128);
    } else {
      ShlOne(128);
      LowAddMultiple(x - W128, 1, 128);
      LowOfSmall(x - W128, 128);
    }
  }

  /** The mask keeps the low `width` bits for wide pools and the low word otherwise. */
  lemma ConstrainedMask(bits: nat, hi: Word, lo: Word, m: Word)
    requires bits <= 128
    requires m == if bits == 0 then hi else if bits < 64 then And64(hi, Sub64(Shl64(1, 64 - bits), 1)) else 0
    ensures Join(m, lo) == Low(Join(hi, lo), MaskBits(bits))
  {
    if bits == 0 {
      WrapSum(Join(hi, lo));
    } else if bits < 64 {
      MaskedWord(hi, 64 - bits);
      LowOfJoin(hi, lo, 64 - bits);
    } else {
      LowOfJoin(hi, lo, 0);
    }
  }

  lemma LowOfJoin(hi: Word, lo: Word, n: nat)
    ensures Low(Join(hi, lo), 64 + n) == Low(hi, n) * W64 + lo
  {
    hide Pow2, Low;
    Pow2Values();
    WordShift(hi);
    LowJoin(hi, lo, 64, n);
    WordShift(Low(hi, n));
  }
}

/** The key of a stream: which streams share one, and which pools have an account and a
    destination whose stream fails. All of a stream's stride, mask and start comes from one
    64-bit key, so the failing cycles have to be shown among those. */
module Keys {
  import opened Words
  import opened Addresses
  import opened Mixer
  import opened Cycles
  import opened Hygiene
  import opened SkipBound
  import opened Streams
  import opened Draws
  import opened Evaluation
  import opened Tweaks

  /** A word of material as a function of the key alone. */
  function Keyed(key: Word, salt: Word): Word { SplitMix64(Xor64(key, salt)) }

  /** The cycle of a key over a pool. */
  function CycleOfKey(prefix: Addr, bits: nat, key: Word): (c: Cycle)
    requires bits <= 128
    ensures c.Valid() && c.bits == bits
  {
    KeyedCycle(Pool(prefix, bits, 0), Keyed(key, 0x12), Keyed(key, 0x13), Keyed(key, 0x14), Keyed(key, 0x15))
  }

  /** The key of a stream. */
  function Key(p: Pool, domain: Word, tweak: Word): Word { Xor64(Xor64(p.seed, domain), tweak) }

  lemma CycleHasKey(p: Pool, domain: Word, tweak: Word)
    requires p.Valid()
    ensures Origin(p, domain, tweak).cycle == CycleOfKey(p.prefix, p.bits, Key(p, domain, tweak))
  {
    hide SplitMix64, Bitwise, Low;
  }

  // ----- which streams are the same -----

  lemma KeysAgreeIff(p: Pool, d: Word, t: Word, d': Word, t': Word)
    ensures Key(p, d, t) == Key(p, d', t') <==> Xor64(d, t) == Xor64(d', t')
  {
    hide Bitwise;
    XorAssoc(p.seed, d, t);
    XorAssoc(p.seed, d', t');
    if Xor64(d, t) != Xor64(d', t') {
      XorInjective(Xor64(d, t), Xor64(d', t'), p.seed);
    }
  }

  /** Two streams of a pool are one and the same, start included, exactly when domain XOR
      tweak agree. */
  lemma OriginsAgreeIff(p: Pool, d: Word, t: Word, d': Word, t': Word)
    requires p.Valid()
    ensures Origin(p, d, t) == Origin(p, d', t') <==> Xor64(d, t) == Xor64(d', t')
  {
    hide SplitMix64, Bitwise, Low;
    KeysAgreeIff(p, d, t, d', t');
    if Key(p, d, t) != Key(p, d', t') {
      var x, y := Xor64(Key(p, d, t), 0x11), Xor64(Key(p, d', t'), 0x11);
      XorInjective(Key(p, d, t), Key(p, d', t'), 0x11);
      MixInjective(x, y);
      assert Origin(p, d, t).pos % W64 == SplitMix64(x) && Origin(p, d', t').pos % W64 == SplitMix64(y);
    }
  }

  /** Two accounts never share a stream at one destination ... */
  lemma AccountsDifferAt(p: Pool, i: Word, j: Word, dest: Bytes)
    requires p.Valid() && i != j
    ensures Origin(p, AccountDomain(p.seed, i), TweakHost(dest))
         != Origin(p, AccountDomain(p.seed, j), TweakHost(dest))
  {
    hide Origin, AccountDomain, TweakHost, Bitwise;
    var a, b, t := AccountDomain(p.seed, i), AccountDomain(p.seed, j), TweakHost(dest);
    AccountDomainsDistinct(p.seed, i, j);
    XorInjective(a, b, t);
    OriginsAgreeIff(p, a, t, b, t);
  }

  /** ... but for every destination of the one there is a destination at which the other
      walks the very same sequence. */
  lemma AccountsShare(p: Pool, i: Word, j: Word, dest: Bytes) returns (dest': Bytes)
    requires p.Valid()
    ensures Normal(dest')
    ensures Origin(p, AccountDomain(p.seed, i), TweakHost(dest))
         == Origin(p, AccountDomain(p.seed, j), TweakHost(dest'))
  {
    hide Origin, AccountDomain, TweakHost, Bitwise;
    var a, b, t := AccountDomain(p.seed, i), AccountDomain(p.seed, j), TweakHost(dest);
    var t' := Xor64(Xor64(a, t), b);
    dest' := TweakReaches(t');
    XorComm(b, t');
    XorCancel(Xor64(a, t), b);
    OriginsAgreeIff(p, a, t, b, t');
  }

  // ----- keys whose cycles are stuck -----

  /** A cycle is stuck when its stride moves less than an eighth of a block. */
  lemma SlowKeyIsStuck(prefix: Addr, bits: nat, key: Word)
    requires bits <= 88
    requires var stride := Join(Keyed(key, 0x12), Or64(Keyed(key, 0x13), 1));
             Slow(128 - bits, stride) && 8 * Drift(128 - bits, stride) < BlockSize(128 - bits)
    ensures Stuck(CycleOfKey(prefix, bits, key))
  {
    hide Slow, Drift, BlockSize, Keyed, Low, Bitwise;
  }

  lemma OddStays(x: Word)
    requires x % 2 == 1
    ensures Or64(x, 1) == x
  {
    hide Pow2, Low, Shl, Shr;
    OrZero(x / 2);
    assert Or(x, 1) == 1 + 2 * Or(x / 2, 0);
  }

  // ----- prefix lengths 40 to 85: a stride that ends in a lone 1 -----

  lemma LowOnlyOne(width: nat, stride: nat)
    requires 43 <= width && Low(stride, width - 24) == 1
    ensures Slow(width, stride) && Drift(width, stride) == 1 && BlockSize(width) >= 8
  {
    hide Low, Shl, Shr;
    Pow2Small();
    Pow2Monotone(3, width - 40);
    StrideParts(width, stride);
    ShlIsProduct(0, width - 40);
    ShlIsProduct(1, width - 40);
    if StrideField(width, stride) > 0 {
      ShlMonotone(1, StrideField(width, stride), width - 40);
    }
  }

  lemma LowOfUnit(hi: Word, lo: Word, n: nat)
    requires 0 < n <= 64 && Low(lo, n) == 1
    ensures Low(Join(hi, lo), n) == 1
  {
    hide Low, Shl, Shr, Pow2;
    Pow2Values();
    LowOfJoin(hi, lo, 0);
    LowLow(Join(hi, lo), n, 64);
    assert Low(hi, 0) == 0 by { LowNothing(hi); }
  }

  /** A key whose stride has low word 1. */
  lemma UnitKey() returns (key: Word)
    ensures Keyed(key, 0x13) == 1
  {
    hide SplitMix64, Unmix64, Bitwise;
    key := Xor64(Unmix64(1), 0x13);
    XorCancel(Unmix64(1), 0x13);
    MixUnmix(1);
  }

  lemma UnitKeyIsStuck(prefix: Addr, bits: nat, key: Word)
    requires 40 <= bits <= 84 && Keyed(key, 0x13) == 1
    ensures Stuck(CycleOfKey(prefix, bits, key))
  {
    hide Low, Keyed, Slow, Drift, Bitwise, Stuck;
    var w := 128 - bits;
    Pow2Small();
    Pow2Monotone(4, w - 40);
    Pow2Monotone(4, w - 24);
    LowOfSmall(1, w - 24);
    OddStays(1);
    LowOfUnit(Keyed(key, 0x12), 1, w - 24);
    LowOnlyOne(w, Join(Keyed(key, 0x12), 1));
    SlowKeyIsStuck(prefix, bits, key);
  }

  // ----- prefix length 85: host 0 right after the marker's block -----

  const EDGE_KEY: Word := 0x4856_ad46_e808_ba79

  lemma EdgeStride()
    ensures Keyed(EDGE_KEY, 0x13) == 0x12_3e78_0000
  {
    hide Bitwise, SplitMix64;
    assert Xor(0x4856_ad46_e808_ba79, 0x13) == 0x4856_ad46_e808_ba6a by {
      XorEight(0x48, 0x56, 0xad, 0x46, 0xe8, 0x08, 0xba, 0x79,
               0x00, 0x00, 0x00, 0x00, 0x00, 0x00, 0x00, 0x13);
    }
    assert Xor(0xe68e_2700_6753_367f, 0x3_9a38_9c01) == 0xe68e_2703_fd6b_aa7e by {
      XorEight(0xe6, 0x8e, 0x27, 0x00, 0x67, 0x53, 0x36, 0x7f,
               0x00, 0x00, 0x00, 0x03, 0x9a, 0x38, 0x9c, 0x01);
    }
    assert Xor(0x5556_c7c3_1288_eb0e, 0xa_aad8_f862) == 0x5556_c7c9_b850_136c by {
      XorEight(0x55, 0x56, 0xc7, 0xc3, 0x12, 0x88, 0xeb, 0x0e,
               0x00, 0x00, 0x00, 0x0a, 0xaa, 0xd8, 0xf8, 0x62);
    }
    assert Xor(0x12_3e78_0024, 0x24) == 0x12_3e78_0000 by {
      XorEight(0x00, 0x00, 0x00, 0x12, 0x3e, 0x78, 0x00, 0x24,
               0x00, 0x00, 0x00, 0x00, 0x00, 0x00, 0x00, 0x24);
    }
    MixIs(0x4856_ad46_e808_ba6a, 0xe68e_2700_6753_367f, 0xe68e_2703_fd6b_aa7e, 0x5556_c7c3_1288_eb0e,
          0x5556_c7c9_b850_136c, 0x12_3e78_0024, 0x12_3e78_0000);
  }

  lemma EdgeMask()
    ensures Keyed(EDGE_KEY, 0x15) == 0xc885_e800_02de_45a0
  {
    hide Bitwise, SplitMix64;
    assert Xor(0x4856_ad46_e808_ba79, 0x15) == 0x4856_ad46_e808_ba6c by {
      XorEight(0x48, 0x56, 0xad, 0x46, 0xe8, 0x08, 0xba, 0x79,
               0x00, 0x00, 0x00, 0x00, 0x00, 0x00, 0x00, 0x15);
    }
    assert Xor(0xe68e_2700_6753_3681, 0x3_9a38_9c01) == 0xe68e_2703_fd6b_aa80 by {
      XorEight(0xe6, 0x8e, 0x27, 0x00, 0x67, 0x53, 0x36, 0x81,
               0x00, 0x00, 0x00, 0x03, 0x9a, 0x38, 0x9c, 0x01);
    }
    assert Xor(0xd407_569d_4c52_b680, 0x1a_80ea_d3a9) == 0xd407_5687_ccb8_6529 by {
      XorEight(0xd4, 0x07, 0x56, 0x9d, 0x4c, 0x52, 0xb6, 0x80,
               0x00, 0x00, 0x00, 0x1a, 0x80, 0xea, 0xd3, 0xa9);
    }
    assert Xor(0xc885_e801_93d5_95a3, 0x1_910b_d003) == 0xc885_e800_02de_45a0 by {
      XorEight(0xc8, 0x85, 0xe8, 0x01, 0x93, 0xd5, 0x95, 0xa3,
               0x00, 0x00, 0x00, 0x01, 0x91, 0x0b, 0xd0, 0x03);
    }
    MixIs(0x4856_ad46_e808_ba6c, 0xe68e_2700_6753_3681, 0xe68e_2703_fd6b_aa80, 0xd407_569d_4c52_b680,
          0xd407_5687_ccb8_6529, 0xc885_e801_93d5_95a3, 0xc885_e800_02de_45a0);
  }

  /** Bits 24 to 42 of the mask hold 2. */
  lemma EdgeField(n: nat)
    requires n == 16 || n == 19
    ensures Field(0xc885_e800_02de_45a0, 24, n) == 2
  {
    hide Low, Shr, Pow2;
    Pow2Values();
    ShrLowAreDivMod(0xc885_e800_02de_45a0, 24);
    EdgePowers();
    ShrLowAreDivMod(0xc8_85e8_0002, n);
  }

  lemma EdgePowers()
    ensures Pow2(19) == 0x8_0000 && Pow2(17) == 0x2_0000 && Pow2(14) == 0x4000
  {
    Pow2Values();
    assert Pow2(17) == 2 * Pow2(16);
    assert Pow2(19) == 4 * Pow2(17);
    assert Pow2(10) == 4 * Pow2(8);
    assert Pow2(12) == 4 * Pow2(10);
    assert Pow2(14) == 4 * Pow2(12);
  }

  /** So host 0 sits at 2^17 on the ring, and the marker's block ends there. */
  lemma EdgePlaces(c: Cycle)
    requires c.Valid() && c.bits == 85 && c.mask == 0xc885_e800_02de_45a0
    ensures ZeroPos(c) == 0x2_0000 && MarkerStart(c) == 0x2_0000 - 8
  {
    hide Low, Shr, Shl, Pow2, Reverse, Field, Bitwise;
    EdgeField(16);
    EdgeField(19);
    EdgePowers();
    ReverseField(c.mask, 43, 0, 19);
    LowIsField(ZeroCounter(c), 19);
    ReverseOfTwo(19);
    ReverseOfTwo(16);
    ZeroInBlock(c);
    MirrorFields(c);
    XorZero(2);
    Pow2Small();
    ShlIsProduct(MarkerField(c, MARKER), 3);
  }

  lemma LowIsField(x: nat, n: nat)
    ensures Low(x, n) == Field(x, 0, n)
  {
  }

  lemma {:induction false} ReverseOfTwo(n: nat)
    requires n >= 2
    ensures Reverse(2, n) == Pow2(n - 2)
    decreases n
  {
    hide Low, Shl, Shr;
    ReverseTop(2, n);
    ReverseTop(1, n - 1);
    ReverseOfZero(n - 2);
  }

  lemma EdgeKeyIsStuck(prefix: Addr)
    ensures Stuck(CycleOfKey(prefix, 85, EDGE_KEY))
  {
    hide Low, Keyed, Slow, Drift, Bitwise, Pow2, ZeroPos, MarkerStart;
    var c := CycleOfKey(prefix, 85, EDGE_KEY);
    EdgeStride();
    EdgeMask();
    EdgeStrideLow();
    LowOfUnit(Keyed(EDGE_KEY, 0x12), 0x12_3e78_0001, 19);
    LowOnlyOne(43, c.stride);
    EdgeMaskKept(Keyed(EDGE_KEY, 0x14));
    EdgePlaces(c);
    Pow2Small();
  }

  lemma EdgeStrideLow()
    ensures Or64(0x12_3e78_0000, 1) == 0x12_3e78_0001 && Low(0x12_3e78_0001, 19) == 1
  {
    hide Low, Pow2;
    EdgePowers();
    ShrLowAreDivMod(0x12_3e78_0001, 19);
    OrLow(0x12_3e78_0000);
  }

  lemma OrLow(x: Word)
    requires x % 2 == 0
    ensures Or64(x, 1) == x + 1
  {
    hide Pow2, Low, Shl, Shr;
    OrZero(x / 2);
    assert Or(x, 1) == 1 + 2 * Or(x / 2, 0);
  }

  lemma EdgeMaskKept(hi: Word)
    ensures Low(Join(hi, 0xc885_e800_02de_45a0), 64) == 0xc885_e800_02de_45a0
  {
    hide Low;
    LowOfJoin(hi, 0xc885_e800_02de_45a0, 0);
    LowNothing(hi);
  }

  // ----- prefix lengths up to 39: a stride with no bits around the marker's field -----

  lemma GapStride(width: nat, stride: nat, n: nat)
    requires 43 <= width && n <= width - 43 && Low(stride, width - 24) < Pow2(n)
    ensures Slow(width, stride) && 8 * Drift(width, stride) < BlockSize(width)
  {
    hide Low, Shl, Shr;
    Pow2Monotone(n, width - 43);
    assert Pow2(width - 41) == 4 * Pow2(width - 43);
    assert Pow2(width - 40) == 2 * Pow2(width - 41);
    StrideParts(width, stride);
    ShlIsProduct(0, width - 40);
    ShlIsProduct(1, width - 40);
    if StrideField(width, stride) > 0 {
      ShlMonotone(1, StrideField(width, stride), width - 40);
    }
  }

  /** A key whose stride has no high word. */
  lemma WordKey() returns (key: Word)
    ensures Keyed(key, 0x12) == 0
  {
    hide SplitMix64, Unmix64, Bitwise;
    key := Xor64(Unmix64(0), 0x12);
    XorCancel(Unmix64(0), 0x12);
    MixUnmix(0);
  }

  lemma WordKeyIsStuck(prefix: Addr, bits: nat, key: Word)
    requires bits <= 21 && Keyed(key, 0x12) == 0
    ensures Stuck(CycleOfKey(prefix, bits, key))
  {
    hide Low, Keyed, Slow, Drift, Bitwise, Stuck, Pow2;
    var stride := Or64(Keyed(key, 0x13), 1);
    Pow2Values();
    Pow2Monotone(64, 104 - bits);
    LowOfSmall(stride, 104 - bits);
    GapStride(128 - bits, stride, 64);
    SlowKeyIsStuck(prefix, bits, key);
  }

  /** A key whose stride has bits 46 to 81 clear. */
  const GAP_KEY: Word := 0xcf22_bd9a_4510_6cb5

  lemma GapHigh()
    ensures Keyed(GAP_KEY, 0x12) == 0x1d_d734_0000
  {
    hide Bitwise, SplitMix64;
    assert Xor(0xcf22_bd9a_4510_6cb5, 0x12) == 0xcf22_bd9a_4510_6ca7 by {
      XorEight(0xcf, 0x22, 0xbd, 0x9a, 0x45, 0x10, 0x6c, 0xb5,
               0x00, 0x00, 0x00, 0x00, 0x00, 0x00, 0x00, 0x12);
    }
    assert Xor(0x6d5a_3753_c45a_e8bc, 0x1_b568_dd4f) == 0x6d5a_3752_7132_35f3 by {
      XorEight(0x6d, 0x5a, 0x37, 0x53, 0xc4, 0x5a, 0xe8, 0xbc,
               0x00, 0x00, 0x00, 0x01, 0xb5, 0x68, 0xdd, 0x4f);
    }
    assert Xor(0xfb5c_65eb_57f7_5b9b, 0x1f_6b8c_bd6a) == 0xfb5c_65f4_3c7b_e6f1 by {
      XorEight(0xfb, 0x5c, 0x65, 0xeb, 0x57, 0xf7, 0x5b, 0x9b,
               0x00, 0x00, 0x00, 0x1f, 0x6b, 0x8c, 0xbd, 0x6a);
    }
    assert Xor(0x1d_d734_003b, 0x3b) == 0x1d_d734_0000 by {
      XorEight(0x00, 0x00, 0x00, 0x1d, 0xd7, 0x34, 0x00, 0x3b,
               0x00, 0x00, 0x00, 0x00, 0x00, 0x00, 0x00, 0x3b);
    }
    MixIs(0xcf22_bd9a_4510_6ca7, 0x6d5a_3753_c45a_e8bc, 0x6d5a_3752_7132_35f3, 0xfb5c_65eb_57f7_5b9b,
          0xfb5c_65f4_3c7b_e6f1, 0x1d_d734_003b, 0x1d_d734_0000);
  }

  lemma GapLow()
    ensures Keyed(GAP_KEY, 0x13) == 0x3f33_eba4_64f9
  {
    hide Bitwise, SplitMix64;
    assert Xor(0xcf22_bd9a_4510_6cb5, 0x13) == 0xcf22_bd9a_4510_6ca6 by {
      XorEight(0xcf, 0x22, 0xbd, 0x9a, 0x45, 0x10, 0x6c, 0xb5,
               0x00, 0x00, 0x00, 0x00, 0x00, 0x00, 0x00, 0x13);
    }
    assert Xor(0x6d5a_3753_c45a_e8bb, 0x1_b568_dd4f) == 0x6d5a_3752_7132_35f4 by {
      XorEight(0x6d, 0x5a, 0x37, 0x53, 0xc4, 0x5a, 0xe8, 0xbb,
               0x00, 0x00, 0x00, 0x01, 0xb5, 0x68, 0xdd, 0x4f);
    }
    assert Xor(0xbab4_ad58_74dc_4154, 0x17_5695_ab0e) == 0xbab4_ad4f_2249_ea5a by {
      XorEight(0xba, 0xb4, 0xad, 0x58, 0x74, 0xdc, 0x41, 0x54,
               0x00, 0x00, 0x00, 0x17, 0x56, 0x95, 0xab, 0x0e);
    }
    assert Xor(0x3f33_eba4_1a9e, 0x7e67) == 0x3f33_eba4_64f9 by {
      XorEight(0x00, 0x00, 0x3f, 0x33, 0xeb, 0xa4, 0x1a, 0x9e,
               0x00, 0x00, 0x00, 0x00, 0x00, 0x00, 0x7e, 0x67);
    }
    MixIs(0xcf22_bd9a_4510_6ca6, 0x6d5a_3753_c45a_e8bb, 0x6d5a_3752_7132_35f4, 0xbab4_ad58_74dc_4154,
          0xbab4_ad4f_2249_ea5a, 0x3f33_eba4_1a9e, 0x3f33_eba4_64f9);
  }

  lemma GapPowers()
    ensures Pow2(18) == 0x4_0000 && Pow2(46) == 0x4000_0000_0000
  {
    Pow2Values();
    assert Pow2(18) == 4 * Pow2(16);
    assert Pow2(42) == 4 * Pow2(40);
    assert Pow2(44) == 4 * Pow2(42);
    assert Pow2(46) == 4 * Pow2(44);
  }

  lemma GapOf(width: nat)
    requires 89 <= width <= 106
    ensures Low(Join(0x1d_d734_0000, 0x3f33_eba4_64f9), width - 24) < Pow2(46)
  {
    hide Low, Pow2;
    GapPowers();
    LowOfJoin(0x1d_d734_0000, 0x3f33_eba4_64f9, width - 88);
    ShrLowAreDivMod(0x1d_d734_0000, 18);
    LowLow(0x1d_d734_0000, width - 88, 18);
    LowOfZero(width - 88);
  }

  lemma LowOfZero(n: nat)
    ensures Low(0, n) == 0
  {
    hide Low;
    LowOfSmall(0, n);
  }

  lemma GapKeyIsStuck(prefix: Addr, bits: nat)
    requires 22 <= bits <= 39
    ensures Stuck(CycleOfKey(prefix, bits, GAP_KEY))
  {
    hide Low, Keyed, Slow, Drift, Bitwise, Stuck, Pow2;
    GapHigh();
    GapLow();
    OddStays(0x3f33_eba4_64f9);
    GapOf(128 - bits);
    GapStride(128 - bits, Join(0x1d_d734_0000, 0x3f33_eba4_64f9), 46);
    SlowKeyIsStuck(prefix, bits, GAP_KEY);
  }

  // ----- exactly which pools -----

  lemma StuckKey(prefix: Addr, bits: nat) returns (key: Word)
    requires bits <= 85
    ensures Stuck(CycleOfKey(prefix, bits, key))
  {
    hide Keyed, Stuck, CycleOfKey;
    if bits == 85 {
      key := EDGE_KEY;
      EdgeKeyIsStuck(prefix);
    } else if bits >= 40 {
      key := UnitKey();
      UnitKeyIsStuck(prefix, bits, key);
    } else if bits >= 22 {
      key := GAP_KEY;
      GapKeyIsStuck(prefix, bits);
    } else {
      key := WordKey();
      WordKeyIsStuck(prefix, bits, key);
    }
  }

  /** The tweak that gives a chosen key. */
  lemma TweakFor(p: Pool, domain: Word, key: Word) returns (tweak: Word)
    ensures Key(p, domain, tweak) == key
  {
    hide Bitwise;
    var k := Xor64(p.seed, domain);
    tweak := Xor64(key, k);
    XorComm(k, tweak);
    XorCancel(key, k);
  }

  /** Above 85 bits every stream is clean. */
  lemma LongPrefixesClean(p: Pool, domain: Word, tweak: Word)
    requires p.Valid() && p.bits > 85
    ensures CleanStream(Origin(p, domain, tweak))
  {
    hide Origin, CleanStream, Stuck, Fragile;
    var s := Origin(p, domain, tweak);
    CleanStreamIff(s);
    if p.bits <= 88 && Stuck(s.cycle) {
      StuckIsFragile(s.cycle);
      NeverFragileUpTo42(128 - p.bits, s.cycle.stride);
    }
  }

  /** Up to 85 bits every domain has a tweak whose stream is not. */
  lemma SomeTweakFails(p: Pool, domain: Word) returns (tweak: Word)
    requires p.Valid() && p.bits <= 85
    ensures !CleanStream(Origin(p, domain, tweak))
  {
    hide Origin, CleanStream, Stuck, CycleOfKey, Key;
    var key := StuckKey(p.prefix, p.bits);
    tweak := TweakFor(p, domain, key);
    CycleHasKey(p, domain, tweak);
    CleanStreamIff(Origin(p, domain, tweak));
  }

  /** Whatever the seed and the account, some normal destination's stream hands out a
      reserved or marked address exactly when the prefix has at most 85 bits. */
  lemma SomeDestinationFailsIff(p: Pool, idx: Word)
    requires p.Valid()
    ensures (exists dest: Bytes :: Normal(dest)
                                   && !CleanStream(Origin(p, AccountDomain(p.seed, idx), TweakHost(dest))))
       <==> p.bits <= 85
  {
    hide Origin, CleanStream, AccountDomain, TweakHost, Normal;
    var domain := AccountDomain(p.seed, idx);
    if p.bits <= 85 {
      var tweak := SomeTweakFails(p, domain);
      var dest := TweakReaches(tweak);
    } else {
      forall dest: Bytes
        ensures CleanStream(Origin(p, domain, TweakHost(dest)))
      {
        LongPrefixesClean(p, domain, TweakHost(dest));
      }
    }
  }
}

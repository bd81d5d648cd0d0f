/** Known addresses: what the proxy hands out first, number for number, for an ordinary
    configuration, account and destination. */
module KnownAddresses {
  import opened Words
  import opened Addresses
  import opened Mixer
  import opened Cycles
  import opened Hygiene
  import opened Streams
  import opened Slices
  import opened Draws
  import opened Evaluation
  import opened Keys
  import opened KnownFailure

  /** Of a pool with seed 1, its first account and the site. */
  const SITE_KEY: Word := 0xfa67_b809_0084_ad22

  lemma SiteKey(p: Pool)
    requires p.seed == 1
    ensures Key(p, AccountDomain(1, 0), TweakHost(SITE)) == SITE_KEY
  {
    hide Bitwise, SplitMix64, TweakHost, AccountDomain;
    FirstDomain();
    SiteHashed();
    assert Xor(0x1, 0xe99f_f867_dbf6_82c9) == 0xe99f_f867_dbf6_82c8 by {
      XorEight(0x00, 0x00, 0x00, 0x00, 0x00, 0x00, 0x00, 0x01,
               0xe9, 0x9f, 0xf8, 0x67, 0xdb, 0xf6, 0x82, 0xc9);
    }
    assert Xor(0xe99f_f867_dbf6_82c8, 0x13f8_406e_db72_2fea) == 0xfa67_b809_0084_ad22 by {
      XorEight(0xe9, 0x9f, 0xf8, 0x67, 0xdb, 0xf6, 0x82, 0xc8,
               0x13, 0xf8, 0x40, 0x6e, 0xdb, 0x72, 0x2f, 0xea);
    }
  }

  /** The low word of the start, which is all of it that a /64 uses. */
  lemma SiteStart()
    ensures Keyed(SITE_KEY, 0x11) == 0x5382_63d6_e5bd_68f6
  {
    hide Bitwise, SplitMix64;
    assert Xor(0xfa67_b809_0084_ad22, 0x11) == 0xfa67_b809_0084_ad33 by {
      XorEight(0xfa, 0x67, 0xb8, 0x09, 0x00, 0x84, 0xad, 0x22,
               0x00, 0x00, 0x00, 0x00, 0x00, 0x00, 0x00, 0x11);
    }
    assert Xor(0x989f_31c2_7fcf_2948, 0x2_627c_c709) == 0x989f_31c0_1db3_ee41 by {
      XorEight(0x98, 0x9f, 0x31, 0xc2, 0x7f, 0xcf, 0x29, 0x48,
               0x00, 0x00, 0x00, 0x02, 0x62, 0x7c, 0xc7, 0x09);
    }
    assert Xor(0xf6ee_6963_b90b_51f9, 0x1e_ddcd_2c77) == 0xf6ee_697d_64c6_7d8e by {
      XorEight(0xf6, 0xee, 0x69, 0x63, 0xb9, 0x0b, 0x51, 0xf9,
               0x00, 0x00, 0x00, 0x1e, 0xdd, 0xcd, 0x2c, 0x77);
    }
    assert Xor(0x5382_63d6_42b9_af5a, 0xa704_c7ac) == 0x5382_63d6_e5bd_68f6 by {
      XorEight(0x53, 0x82, 0x63, 0xd6, 0x42, 0xb9, 0xaf, 0x5a,
               0x00, 0x00, 0x00, 0x00, 0xa7, 0x04, 0xc7, 0xac);
    }
    MixIs(0xfa67_b809_0084_ad33, 0x989f_31c2_7fcf_2948, 0x989f_31c0_1db3_ee41, 0xf6ee_6963_b90b_51f9,
          0xf6ee_697d_64c6_7d8e, 0x5382_63d6_42b9_af5a, 0x5382_63d6_e5bd_68f6);
  }

  lemma SiteMask()
    ensures Keyed(SITE_KEY, 0x15) == 0x9bc8_77ce_40b6_d8d6
  {
    hide Bitwise, SplitMix64;
    assert Xor(0xfa67_b809_0084_ad22, 0x15) == 0xfa67_b809_0084_ad37 by {
      XorEight(0xfa, 0x67, 0xb8, 0x09, 0x00, 0x84, 0xad, 0x22,
               0x00, 0x00, 0x00, 0x00, 0x00, 0x00, 0x00, 0x15);
    }
    assert Xor(0x989f_31c2_7fcf_294c, 0x2_627c_c709) == 0x989f_31c0_1db3_ee45 by {
      XorEight(0x98, 0x9f, 0x31, 0xc2, 0x7f, 0xcf, 0x29, 0x4c,
               0x00, 0x00, 0x00, 0x02, 0x62, 0x7c, 0xc7, 0x09);
    }
    assert Xor(0xf44f_8718_2c9e_e8dd, 0x1e_89f0_e305) == 0xf44f_8706_a56e_0bd8 by {
      XorEight(0xf4, 0x4f, 0x87, 0x18, 0x2c, 0x9e, 0xe8, 0xdd,
               0x00, 0x00, 0x00, 0x1e, 0x89, 0xf0, 0xe3, 0x05);
    }
    assert Xor(0x9bc8_77cf_7726_3748, 0x1_3790_ef9e) == 0x9bc8_77ce_40b6_d8d6 by {
      XorEight(0x9b, 0xc8, 0x77, 0xcf, 0x77, 0x26, 0x37, 0x48,
               0x00, 0x00, 0x00, 0x01, 0x37, 0x90, 0xef, 0x9e);
    }
    MixIs(0xfa67_b809_0084_ad37, 0x989f_31c2_7fcf_294c, 0x989f_31c0_1db3_ee45, 0xf44f_8718_2c9e_e8dd,
          0xf44f_8706_a56e_0bd8, 0x9bc8_77cf_7726_3748, 0x9bc8_77ce_40b6_d8d6);
  }

  lemma SiteBytes()
    ensures Reverse(0x53, 8) == 0xca && Reverse(0x63, 8) == 0xc6 && Reverse(0x68, 8) == 0x16 && Reverse(0x82, 8) == 0x41
    ensures Reverse(0xbd, 8) == 0xbd && Reverse(0xd6, 8) == 0x6b && Reverse(0xe5, 8) == 0xa7 && Reverse(0xf6, 8) == 0x6f
  {
    hide Reverse;
    MirrorByte(0x5, 0x3, 0xca);
    MirrorByte(0x6, 0x3, 0xc6);
    MirrorByte(0x6, 0x8, 0x16);
    MirrorByte(0x8, 0x2, 0x41);
    MirrorByte(0xb, 0xd, 0xbd);
    MirrorByte(0xd, 0x6, 0x6b);
    MirrorByte(0xe, 0x5, 0xa7);
    MirrorByte(0xf, 0x6, 0x6f);
  }

  lemma SiteMirrored()
    ensures Reverse(0x5382_63d6_e5bd_68f6, 64) == 0x6f16_bda7_6bc6_41ca
  {
    hide Reverse, Pow2;
    BytePowers();
    PowZero();
    ReverseNothing(0);
    SiteBytes();
    MirrorPush(0x0, 0x53, 0, 0x1, 0xca, 0x0);
    MirrorPush(0x53, 0x82, 8, 0x100, 0x41, 0xca);
    MirrorPush(0x5382, 0x63, 16, 0x1_0000, 0xc6, 0x41ca);
    MirrorPush(0x53_8263, 0xd6, 24, 0x100_0000, 0x6b, 0xc6_41ca);
    MirrorPush(0x5382_63d6, 0xe5, 32, 0x1_0000_0000, 0xa7, 0x6bc6_41ca);
    MirrorPush(0x53_8263_d6e5, 0xbd, 40, 0x100_0000_0000, 0xbd, 0xa7_6bc6_41ca);
    MirrorPush(0x5382_63d6_e5bd, 0x68, 48, 0x1_0000_0000_0000, 0x16, 0xbda7_6bc6_41ca);
    MirrorPush(0x53_8263_d6e5_bd68, 0xf6, 56, 0x100_0000_0000_0000, 0x6f, 0x16_bda7_6bc6_41ca);
  }

  lemma SiteMasked()
    ensures Xor(0x6f16_bda7_6bc6_41ca, 0x9bc8_77ce_40b6_d8d6) == 0xf4de_ca69_2b70_991c
  {
    hide Bitwise;
    XorEight(0x6f, 0x16, 0xbd, 0xa7, 0x6b, 0xc6, 0x41, 0xca,
             0x9b, 0xc8, 0x77, 0xce, 0x40, 0xb6, 0xd8, 0xd6);
  }

  /** Only the low word of the start counts on a /64. */
  lemma StartHost(c: Cycle, hi: Word, lo: Word, mHi: Word, mLo: Word)
    requires c.Valid() && c.bits == 64 && c.mask == Low(Join(mHi, mLo), 64)
    ensures Host(c, Join(hi, lo)) == Xor(Reverse(lo, 64), mLo)
  {
    hide Bitwise, Reverse, Low, Pow2, Shl;
    Pow2Values();
    WordShift(hi);
    ReverseJoin(hi, lo, 0, 64);
    ReverseNothing(hi);
    ShlIsProduct(Reverse(lo, 64), 0);
    PowZero();
    LowOfJoin(mHi, mLo, 0);
    LowNothing(mHi);
    LowLow(Join(mHi, mLo), 64, 64);
  }

  lemma SiteHost(p: Pool)
    requires p.bits == 64 && p.seed == 1
    ensures var s := Origin(p, AccountDomain(1, 0), TweakHost(SITE));
            Host(s.cycle, s.pos) == 0xf4de_ca69_2b70_991c
  {
    hide Bitwise, SplitMix64, TweakHost, AccountDomain, Low, Reverse, Host;
    var s := Origin(p, AccountDomain(1, 0), TweakHost(SITE));
    SiteKey(p);
    SiteStart();
    SiteMask();
    StartHost(s.cycle, Keyed(SITE_KEY, 0x10), Keyed(SITE_KEY, 0x11), Keyed(SITE_KEY, 0x14), Keyed(SITE_KEY, 0x15));
    SiteMirrored();
    SiteMasked();
  }

  lemma HostIsClean()
    ensures !Flagged(64, 0xf4de_ca69_2b70_991c)
  {
    hide Low, Shr, Pow2;
    Pow2Values();
    ShrLowAreDivMod(0xf4de_ca69_2b70_991c, 24);
    ShrLowAreDivMod(0xf4_deca_692b, 16);
  }

  /** An address of a cycle whose start is not flagged is drawn first. */
  lemma FirstDraw(s: CycleState)
    requires s.Valid() && !FlaggedAt(s.cycle, s.pos)
    ensures Low(Num(NthDraw(s, 0)), s.cycle.Width()) == Host(s.cycle, s.pos)
  {
    hide Host, AddrAt, PosAfter, FlaggedAt, Low;
    PosAfterZero(s.cycle, s.pos);
    AddrAtParts(s.cycle, s.pos);
  }

  /** The first address of the site on a /64 with seed 1 and its first account ends in
      f4de:ca69:2b70:991c. */
  lemma FirstAddress(p: Pool)
    requires p.bits == 64 && p.seed == 1
    ensures Low(Num(NthDraw(Origin(p, AccountDomain(1, 0), TweakHost(SITE)), 0)), 64) == 0xf4de_ca69_2b70_991c
  {
    hide Origin, TweakHost, AccountDomain, Low, Host, NthDraw, Flagged;
    var s := Origin(p, AccountDomain(1, 0), TweakHost(SITE));
    SiteHost(p);
    HostIsClean();
    FirstDraw(s);
  }

  // ----- a slice of the same site -----

  lemma SliceDomain()
    ensures Xor64(AccountDomain(1, 0), TweakHost(SITE)) == 0xfa67_b809_0084_ad23
  {
    hide Bitwise, TweakHost, AccountDomain;
    FirstDomain();
    SiteHashed();
    assert Xor(0xe99f_f867_dbf6_82c9, 0x13f8_406e_db72_2fea) == 0xfa67_b809_0084_ad23 by {
      XorEight(0xe9, 0x9f, 0xf8, 0x67, 0xdb, 0xf6, 0x82, 0xc9,
               0x13, 0xf8, 0x40, 0x6e, 0xdb, 0x72, 0x2f, 0xea);
    }
  }

  lemma FirstSub(p: Pool)
    requires p.seed == 1
    ensures SplitMix64(MixKey(p, 1, 0xfa67_b809_0084_ad23)) == 0xa69d_39a0_ccd0_1e5f
  {
    hide Bitwise, SplitMix64;
    assert Xor(0x1, 0x1) == 0x0 by {
      XorEight(0x00, 0x00, 0x00, 0x00, 0x00, 0x00, 0x00, 0x01,
               0x00, 0x00, 0x00, 0x00, 0x00, 0x00, 0x00, 0x01);
    }
    assert Xor(0x0, 0xfa67_b809_0084_ad23) == 0xfa67_b809_0084_ad23 by {
      XorEight(0x00, 0x00, 0x00, 0x00, 0x00, 0x00, 0x00, 0x00,
               0xfa, 0x67, 0xb8, 0x09, 0x00, 0x84, 0xad, 0x23);
    }
    assert Xor(0x989f_31c2_7fcf_2938, 0x2_627c_c709) == 0x989f_31c0_1db3_ee31 by {
      XorEight(0x98, 0x9f, 0x31, 0xc2, 0x7f, 0xcf, 0x29, 0x38,
               0x00, 0x00, 0x00, 0x02, 0x62, 0x7c, 0xc7, 0x09);
    }
    assert Xor(0x169_f291_eabc_f669, 0x2d3e_523d) == 0x169_f291_c782_a454 by {
      XorEight(0x01, 0x69, 0xf2, 0x91, 0xea, 0xbc, 0xf6, 0x69,
               0x00, 0x00, 0x00, 0x00, 0x2d, 0x3e, 0x52, 0x3d);
    }
    assert Xor(0xa69d_39a1_81ea_6d1c, 0x1_4d3a_7343) == 0xa69d_39a0_ccd0_1e5f by {
      XorEight(0xa6, 0x9d, 0x39, 0xa1, 0x81, 0xea, 0x6d, 0x1c,
               0x00, 0x00, 0x00, 0x01, 0x4d, 0x3a, 0x73, 0x43);
    }
    MixIs(0xfa67_b809_0084_ad23, 0x989f_31c2_7fcf_2938, 0x989f_31c0_1db3_ee31, 0x169_f291_eabc_f669,
          0x169_f291_c782_a454, 0xa69d_39a1_81ea_6d1c, 0xa69d_39a0_ccd0_1e5f);
  }

  lemma SecondSub(p: Pool)
    requires p.seed == 1
    ensures SplitMix64(MixKey(p, 2, 0xfa67_b809_0084_ad23)) == 0xe011_7edc_ed11_e349
  {
    hide Bitwise, SplitMix64;
    assert Xor(0x2, 0x1) == 0x3 by {
      XorEight(0x00, 0x00, 0x00, 0x00, 0x00, 0x00, 0x00, 0x02,
               0x00, 0x00, 0x00, 0x00, 0x00, 0x00, 0x00, 0x01);
    }
    assert Xor(0x3, 0xfa67_b809_0084_ad23) == 0xfa67_b809_0084_ad20 by {
      XorEight(0x00, 0x00, 0x00, 0x00, 0x00, 0x00, 0x00, 0x03,
               0xfa, 0x67, 0xb8, 0x09, 0x00, 0x84, 0xad, 0x23);
    }
    assert Xor(0x989f_31c2_7fcf_2935, 0x2_627c_c709) == 0x989f_31c0_1db3_ee3c by {
      XorEight(0x98, 0x9f, 0x31, 0xc2, 0x7f, 0xcf, 0x29, 0x35,
               0x00, 0x00, 0x00, 0x02, 0x62, 0x7c, 0xc7, 0x09);
    }
    assert Xor(0x3a35_0442_2892_d55c, 0x7_46a0_8845) == 0x3a35_0445_6e32_5d19 by {
      XorEight(0x3a, 0x35, 0x04, 0x42, 0x28, 0x92, 0xd5, 0x5c,
               0x00, 0x00, 0x00, 0x07, 0x46, 0xa0, 0x88, 0x45);
    }
    assert Xor(0xe011_7edd_2d33_1ef3, 0x1_c022_fdba) == 0xe011_7edc_ed11_e349 by {
      XorEight(0xe0, 0x11, 0x7e, 0xdd, 0x2d, 0x33, 0x1e, 0xf3,
               0x00, 0x00, 0x00, 0x01, 0xc0, 0x22, 0xfd, 0xba);
    }
    MixIs(0xfa67_b809_0084_ad20, 0x989f_31c2_7fcf_2935, 0x989f_31c0_1db3_ee3c, 0x3a35_0442_2892_d55c,
          0x3a35_0445_6e32_5d19, 0xe011_7edd_2d33_1ef3, 0xe011_7edc_ed11_e349);
  }

  lemma FirstIdentifier(p: Pool)
    requires p.seed == 1
    ensures SplitMix64(Xor64(MixKey(p, 1, 0xfa67_b809_0084_ad23), GOLD)) == 0xf51f_cb3d_8514_8ca8
  {
    hide Bitwise, SplitMix64;
    assert Xor(0x1, 0x1) == 0x0 by {
      XorEight(0x00, 0x00, 0x00, 0x00, 0x00, 0x00, 0x00, 0x01,
               0x00, 0x00, 0x00, 0x00, 0x00, 0x00, 0x00, 0x01);
    }
    assert Xor(0x0, 0xfa67_b809_0084_ad23) == 0xfa67_b809_0084_ad23 by {
      XorEight(0x00, 0x00, 0x00, 0x00, 0x00, 0x00, 0x00, 0x00,
               0xfa, 0x67, 0xb8, 0x09, 0x00, 0x84, 0xad, 0x23);
    }
    assert Xor(0xfa67_b809_0084_ad23, 0x9e37_79b9_7f4a_7c15) == 0x6450_c1b0_7fce_d136 by {
      XorEight(0xfa, 0x67, 0xb8, 0x09, 0x00, 0x84, 0xad, 0x23,
               0x9e, 0x37, 0x79, 0xb9, 0x7f, 0x4a, 0x7c, 0x15);
    }
    assert Xor(0x288_3b69_ff19_4d4b, 0xa20_eda7) == 0x288_3b69_f539_a0ec by {
      XorEight(0x02, 0x88, 0x3b, 0x69, 0xff, 0x19, 0x4d, 0x4b,
               0x00, 0x00, 0x00, 0x00, 0x0a, 0x20, 0xed, 0xa7);
    }
    assert Xor(0xfd14_6557_e5c8_668c, 0x1f_a28c_aafc) == 0xfd14_6548_4744_cc70 by {
      XorEight(0xfd, 0x14, 0x65, 0x57, 0xe5, 0xc8, 0x66, 0x8c,
               0x00, 0x00, 0x00, 0x1f, 0xa2, 0x8c, 0xaa, 0xfc);
    }
    assert Xor(0xf51f_cb3c_6f2b_1ad0, 0x1_ea3f_9678) == 0xf51f_cb3d_8514_8ca8 by {
      XorEight(0xf5, 0x1f, 0xcb, 0x3c, 0x6f, 0x2b, 0x1a, 0xd0,
               0x00, 0x00, 0x00, 0x01, 0xea, 0x3f, 0x96, 0x78);
    }
    MixIs(0x6450_c1b0_7fce_d136, 0x288_3b69_ff19_4d4b, 0x288_3b69_f539_a0ec, 0xfd14_6557_e5c8_668c,
          0xfd14_6548_4744_cc70, 0xf51f_cb3c_6f2b_1ad0, 0xf51f_cb3d_8514_8ca8);
  }

  lemma SmallIsClean(v: nat, total: nat)
    requires 11 <= total <= 64 && 1000 <= v < 2000
    ensures Sanitized(v, total) == v
  {
    hide Low, Shr;
    Pow2Small();
    Pow2Values();
    assert Pow2(11) == 8 * Pow2(8);
    Pow2Monotone(11, total);
    LowOfSmall(v, total);
    Pow2Monotone(11, 24);
    LowOfSmall(v, 24);
    LowOfSmall(0, 16);
  }

  /** With the slice 1000..1999 on the /64, sequence numbers 1 and 2 are hosts 1287 and 1201. */
  lemma SlicedHosts(p: Pool)
    requires p.bits == 64 && p.seed == 1
    ensures var d := Xor64(AccountDomain(1, 0), TweakHost(SITE));
            SlicedHost(p, 1, d, 1000, 1000) == 1287 && SlicedHost(p, 2, d, 1000, 1000) == 1201
  {
    hide Bitwise, SplitMix64, TweakHost, AccountDomain, Sanitized, MixKey;
    SliceDomain();
    FirstSub(p);
    SecondSub(p);
    SmallIsClean(1287, 64);
    SmallIsClean(1201, 64);
  }

  lemma IdentifierIsClean()
    ensures Sanitized(0xf51f_cb3d_8514_8ca8, 64) == 0xf51f_cb3d_8514_8ca8
  {
    hide Low, Shr, Pow2;
    Pow2Values();
    LowOfSmall(0xf51f_cb3d_8514_8ca8, 64);
    ShrLowAreDivMod(0xf51f_cb3d_8514_8ca8, 24);
    ShrLowAreDivMod(0xf5_1fcb_3d85, 16);
  }

  /** With the slice of subnets 1000..1999 on a /48, sequence number 1 is identifier
      f51f:cb3d:8514:8ca8 in subnet 1287. */
  lemma WideSlicedHost(p: Pool)
    requires p.bits == 48 && p.seed == 1
    ensures SlicedHost(p, 1, Xor64(AccountDomain(1, 0), TweakHost(SITE)), 1000, 1000)
         == Shl(1287, 64) + 0xf51f_cb3d_8514_8ca8
  {
    hide Bitwise, SplitMix64, TweakHost, AccountDomain, Sanitized, MixKey, Shl, Low, Pow2;
    SliceDomain();
    FirstSub(p);
    FirstIdentifier(p);
    IdentifierIsClean();
    Pow2Values();
    LowOfSmall(1287, 16);
  }
}

/** A known failure: an ordinary configuration, account and destination for which the
    proxy hands out an address with the EUI-64 marker, and how soon. */
module KnownFailure {
  import opened Words
  import opened Addresses
  import opened Mixer
  import opened Hygiene
  import opened SkipBound
  import opened Streams
  import opened Rotation
  import opened Draws
  import opened Picks
  import opened ProxyRuns
  import opened Restarts
  import opened Evaluation
  import opened Tweaks
  import opened Keys

  /** The host name "vkf.test". */
  const SITE: Bytes := [0x76, 0x6b, 0x66, 0x2e, 0x74, 0x65, 0x73, 0x74]

  /** The domain of the first account of a pool with seed 1. */
  lemma FirstDomain()
    ensures AccountDomain(1, 0) == 0xe99f_f867_dbf6_82c9
  {
    hide Bitwise, SplitMix64, Times64;
    ProductIs(1, GOLD);
    assert Xor(0x1, 0x9e37_79b9_7f4a_7c15) == 0x9e37_79b9_7f4a_7c14 by {
      XorEight(0x00, 0x00, 0x00, 0x00, 0x00, 0x00, 0x00, 0x01,
               0x9e, 0x37, 0x79, 0xb9, 0x7f, 0x4a, 0x7c, 0x15);
    }
    assert Xor(0x3c6e_f372_fe94_f829, 0xf1bb_cdcb) == 0x3c6e_f372_0f2f_35e2 by {
      XorEight(0x3c, 0x6e, 0xf3, 0x72, 0xfe, 0x94, 0xf8, 0x29,
               0x00, 0x00, 0x00, 0x00, 0xf1, 0xbb, 0xcd, 0xcb);
    }
    assert Xor(0xe9ed_442c_e999_1a52, 0x1d_3da8_859d) == 0xe9ed_4431_d431_9fcf by {
      XorEight(0xe9, 0xed, 0x44, 0x2c, 0xe9, 0x99, 0x1a, 0x52,
               0x00, 0x00, 0x00, 0x1d, 0x3d, 0xa8, 0x85, 0x9d);
    }
    assert Xor(0xe99f_f866_08c9_7205, 0x1_d33f_f0cc) == 0xe99f_f867_dbf6_82c9 by {
      XorEight(0xe9, 0x9f, 0xf8, 0x66, 0x08, 0xc9, 0x72, 0x05,
               0x00, 0x00, 0x00, 0x01, 0xd3, 0x3f, 0xf0, 0xcc);
    }
    MixIs(0x9e37_79b9_7f4a_7c14, 0x3c6e_f372_fe94_f829, 0x3c6e_f372_0f2f_35e2, 0xe9ed_442c_e999_1a52,
          0xe9ed_4431_d431_9fcf, 0xe99f_f866_08c9_7205, 0xe99f_f867_dbf6_82c9);
  }

  /** One byte of the hash. */
  lemma Hashed(d: Bytes, b: Byte)
    ensures TweakHost(d + [b]) == Times64(Xor64(TweakHost(d), b), PRIME)
  {
    hide Times64, Bitwise;
    var e := d + [b];
    assert e[..|e| - 1] == d;
  }

  /** What a byte makes of a state whose low byte is l. */
  lemma StepIs(q: nat, l: bv8, m: bv8, r: Word)
    requires Push(q, l) < W64 && Push(q, Both(l, m)) * PRIME % W64 == r
    ensures Value(m) < 256 && Times64(Xor64(Push(q, l), Value(m)), PRIME) == r
  {
    hide Bitwise, Both, Times64;
    XorPush(q, l, 0, m);
    XorZero(q);
    ProductIs(Xor64(Push(q, l), Value(m)), PRIME);
  }

  lemma EmptyHashed()
    ensures TweakHost([]) == 0xcbf2_9ce4_8422_2325
  {
  }

  lemma FirstHalfHashed()
    ensures TweakHost(SITE[..4]) == 0x104d_ed00_d121_3d4a
  {
    hide TweakHost, Times64, Bitwise;
    EmptyHashed();
    assert SITE[..0] == [];
    assert SITE[..0] + [0x76] == SITE[..1];
    Hashed(SITE[..0], 0x76);
    assert TweakHost(SITE[..1]) == 0xaf63_eb4c_8602_0609 by {
      StepIs(0xcb_f29c_e484_2223, 0x25, 0x76, 0xaf63_eb4c_8602_0609);
    }
    assert SITE[..1] + [0x6b] == SITE[..2];
    Hashed(SITE[..1], 0x6b);
    assert TweakHost(SITE[..2]) == 0x8cf_3507_b570_d886 by {
      StepIs(0xaf_63eb_4c86_0206, 0x09, 0x6b, 0x8cf_3507_b570_d886);
    }
    assert SITE[..2] + [0x66] == SITE[..3];
    Hashed(SITE[..2], 0x66);
    assert TweakHost(SITE[..3]) == 0x68ef_fc19_4ec0_84a0 by {
      StepIs(0x8_cf35_07b5_70d8, 0x86, 0x66, 0x68ef_fc19_4ec0_84a0);
    }
    assert SITE[..3] + [0x2e] == SITE[..4];
    Hashed(SITE[..3], 0x2e);
    assert TweakHost(SITE[..4]) == 0x104d_ed00_d121_3d4a by {
      StepIs(0x68_effc_194e_c084, 0xa0, 0x2e, 0x104d_ed00_d121_3d4a);
    }
  }

  lemma SiteHashed()
    ensures TweakHost(SITE) == 0x13f8_406e_db72_2fea
  {
    hide TweakHost, Times64, Bitwise;
    FirstHalfHashed();
    assert SITE[..4] + [0x74] == SITE[..5];
    Hashed(SITE[..4], 0x74);
    assert TweakHost(SITE[..5]) == 0xd5a6_f663_5b7b_105a by {
      StepIs(0x10_4ded_00d1_213d, 0x4a, 0x74, 0xd5a6_f663_5b7b_105a);
    }
    assert SITE[..5] + [0x65] == SITE[..6];
    Hashed(SITE[..5], 0x65);
    assert TweakHost(SITE[..6]) == 0x85c4_e9d4_721c_9b0d by {
      StepIs(0xd5_a6f6_635b_7b10, 0x5a, 0x65, 0x85c4_e9d4_721c_9b0d);
    }
    assert SITE[..6] + [0x73] == SITE[..7];
    Hashed(SITE[..6], 0x73);
    assert TweakHost(SITE[..7]) == 0x6a34_d1fd_e69c_371a by {
      StepIs(0x85_c4e9_d472_1c9b, 0x0d, 0x73, 0x6a34_d1fd_e69c_371a);
    }
    assert SITE[..7] + [0x74] == SITE[..8];
    Hashed(SITE[..7], 0x74);
    assert TweakHost(SITE[..8]) == 0x13f8_406e_db72_2fea by {
      StepIs(0x6a_34d1_fde6_9c37, 0x1a, 0x74, 0x13f8_406e_db72_2fea);
    }
    assert SITE[..8] == SITE;
  }

  /** The low word of the stride. */
  lemma SiteStride(p: Pool)
    requires p.seed == 1
    ensures Keyed(Key(p, AccountDomain(1, 0), TweakHost(SITE)), 0x13) == 0x2af9_46ff_fffd_d955
  {
    hide Bitwise, SplitMix64, TweakHost, AccountDomain;
    FirstDomain();
    SiteHashed();
    assert Xor(0x1, 0xe99f_f867_dbf6_82c9) == 0xe99f_f867_dbf6_82c8 by {
      XorEight(0x00, 0x00, 0x00, 0x00, 0x00, 0x00, 0x00, 0x01,
               0xe9, 0x9f, 0xf8, 0x67, 0xdb, 0xf6, 0x82, 0xc9);
    }
    assert Xor(0xe99f_f867_dbf6_82c8, 0x13f8_406e_db72_2fea) == 0xfa67_b809_0084_ad22 by {
      XorEight(0xe9, 0x9f, 0xf8, 0x67, 0xdb, 0xf6, 0x82, 0xc8,
               0x13, 0xf8, 0x40, 0x6e, 0xdb, 0x72, 0x2f, 0xea);
    }
    assert Xor(0xfa67_b809_0084_ad22, 0x13) == 0xfa67_b809_0084_ad31 by {
      XorEight(0xfa, 0x67, 0xb8, 0x09, 0x00, 0x84, 0xad, 0x22,
               0x00, 0x00, 0x00, 0x00, 0x00, 0x00, 0x00, 0x13);
    }
    assert Xor(0x989f_31c2_7fcf_2946, 0x2_627c_c709) == 0x989f_31c0_1db3_ee4f by {
      XorEight(0x98, 0x9f, 0x31, 0xc2, 0x7f, 0xcf, 0x29, 0x46,
               0x00, 0x00, 0x00, 0x02, 0x62, 0x7c, 0xc7, 0x09);
    }
    assert Xor(0x6dc2_515b_4d8f_e217, 0xd_b84a_2b69) == 0x6dc2_5156_f5c5_c97e by {
      XorEight(0x6d, 0xc2, 0x51, 0x5b, 0x4d, 0x8f, 0xe2, 0x17,
               0x00, 0x00, 0x00, 0x0d, 0xb8, 0x4a, 0x2b, 0x69);
    }
    assert Xor(0x2af9_46ff_aa0f_54aa, 0x55f2_8dff) == 0x2af9_46ff_fffd_d955 by {
      XorEight(0x2a, 0xf9, 0x46, 0xff, 0xaa, 0x0f, 0x54, 0xaa,
               0x00, 0x00, 0x00, 0x00, 0x55, 0xf2, 0x8d, 0xff);
    }
    MixIs(0xfa67_b809_0084_ad31, 0x989f_31c2_7fcf_2946, 0x989f_31c0_1db3_ee4f, 0x6dc2_515b_4d8f_e217,
          0x6dc2_5156_f5c5_c97e, 0x2af9_46ff_aa0f_54aa, 0x2af9_46ff_fffd_d955);
  }

  /** It has 0xffff under the marker: the cycle drifts backwards, by 140971 places. */
  lemma SiteDrift(stride: nat)
    requires Low(stride, 64) == 0x2af9_46ff_fffd_d955
    ensures Slow(64, stride) && Drift(64, stride) == 140971 && BlockSize(64) == 0x100_0000
  {
    hide Low, Shr, Pow2;
    Pow2Values();
    FieldOfLow(stride, 24, 16, 64);
    ShrLowAreDivMod(0x2af9_46ff_fffd_d955, 24);
    ShrLowAreDivMod(0x2a_f946_ffff, 16);
    LowLow(stride, 24, 64);
  }

  lemma SiteCycle(p: Pool)
    requires p.bits == 64 && p.seed == 1
    ensures Low(Origin(p, AccountDomain(1, 0), TweakHost(SITE)).cycle.stride, 64) == 0x2af9_46ff_fffd_d955
  {
    hide Bitwise, SplitMix64, TweakHost, AccountDomain, Low, Keyed, Key;
    var key := Key(p, AccountDomain(1, 0), TweakHost(SITE));
    CycleHasKey(p, AccountDomain(1, 0), TweakHost(SITE));
    SiteStride(p);
    OddStays(0x2af9_46ff_fffd_d955);
    LowOfJoin(Keyed(key, 0x12), 0x2af9_46ff_fffd_d955, 0);
    LowNothing(Keyed(key, 0x12));
  }

  /** With a /64, seed 1 and its first account, one of the first 7.8 million addresses for
      this site carries the marker or is reserved. */
  lemma SiteFails(p: Pool) returns (n: nat)
    requires p.bits == 64 && p.seed == 1
    ensures n < 7_800_000
    ensures NeedsHygiene(64, NthDraw(Origin(p, AccountDomain(1, 0), TweakHost(SITE)), n))
  {
    hide Origin, TweakHost, AccountDomain, Slow, Drift, BlockSize, NeedsHygiene, NthDraw, Low;
    var s := Origin(p, AccountDomain(1, 0), TweakHost(SITE));
    SiteCycle(p);
    SiteDrift(s.cycle.stride);
    n := FailsEachLap(s);
  }

  /** The first account of a proxy with seed 1, with no slice of its own. */
  function FirstAccount(username: Str, password: Str): Account {
    Account(username, password, AccountDomain(1, 0), 0, 0)
  }

  /** So a proxy that only ever serves that account and that site comes to reply with such
      an address, whatever its ring and its caps. */
  lemma SiteRunFails(cfg: Config, username: Str, password: Str) returns (run: Run, n: nat)
    requires cfg.Valid() && cfg.pool.bits == 64 && cfg.pool.seed == 1
    ensures IsRun(cfg, run) && n < 7_800_000 && |run.events| == n + 1 && Enabled(cfg, run.states[n], run.events[n])
    ensures forall i | 0 <= i <= n ::
              run.events[i] == Fresh(FirstAccount(username, password), SITE, Choice([], 0, ANY))
    ensures ReplyOf(cfg, run.states[n], run.events[n]).Reply?
            && NeedsHygiene(64, ReplyOf(cfg, run.states[n], run.events[n]).ip)
  {
    hide OriginOf, NeedsHygiene, NthDraw, AccountDomain, TweakHost, Pow2;
    n := SiteFails(cfg.pool);
    Pow2Values();
    run := WalkRun(cfg, FirstAccount(username, password), SITE, n);
    OriginIs(cfg, username, password);
  }

  lemma OriginIs(cfg: Config, username: Str, password: Str)
    requires cfg.Valid()
    ensures OriginOf(cfg, FirstAccount(username, password), SITE)
         == Origin(cfg.pool, AccountDomain(1, 0), TweakHost(SITE))
  {
    hide Origin, TweakHost, AccountDomain;
  }
}

/** The keyed mapping for accounts that own a slice of the pool. */
module Slices {
  import opened Words
  import opened Addresses
  import opened Mixer
  import opened Cycles
  import opened Hygiene
  import opened Streams

  /** 2^33, the marker bit that sanitizeHost flips. */
  const FLIP: nat := 0x2_0000_0000

  // ----- sanitizeHost -----

  predicate ReservedHost(v: nat, total: nat) { v == 0 || v == 1 || v == Pow2(total) - 1 }

  /** A host number that needs no repair. */
  predicate CleanHost(v: nat, total: nat) {
    !(total >= 40 && HasMarker(v)) && !(total > 2 && ReservedHost(v, total))
  }

  /** What sanitizeHost makes of a raw value, in closed form. */
  function Sanitized(v: nat, total: nat): nat { Repaired(Low(v, total), total) }

  function Repaired(x: nat, total: nat): nat {
    if total >= 40 && HasMarker(x) then FlipMarker(x); x - FLIP
    else if total > 2 && ReservedHost(x, total) then 2
    else x
  }

  /** Repairs still to do. */
  function Repairs(v: nat, total: nat): nat {
    if total >= 40 && HasMarker(v) then 1
    else if total <= 2 then 0
    else if v == Pow2(total) - 1 then 3
    else if v == 0 then 2
    else if v == 1 then 1
    else 0
  }

  lemma {:induction false} XorHigh(h: nat, lo: nat, k: nat, n: nat)
    requires lo < Pow2(n)
    ensures Xor(Shl(h, n) + lo, Shl(k, n)) == Shl(Xor(h, k), n) + lo
    decreases n
  {
    if n == 0 {
    } else {
      XorHigh(h, lo / 2, k, n - 1);
    }
  }

  /** How a marked value splits around the flipped bit. */
  lemma MarkedParts(v: nat) returns (q: nat, l: nat)
    requires HasMarker(v)
    ensures l < 0x100_0000 && v == q * 0x100_0000_0000 + 0xfffe * 0x100_0000 + l
    ensures q == Shr(v, 40)
  {
    var x := Shr(v, 24);
    Pow2Values();
    Split(v, 24);
    Split(x, 16);
    ShrShr(v, 24, 16);
    q, l := Shr(x, 16), Low(v, 24);
    ShlIsProduct(x, 24);
    ShlIsProduct(q, 16);
  }

  lemma FieldOfParts(q: nat, f: nat, l: nat)
    requires l < 0x100_0000 && f < 0x1_0000
    ensures Field(q * 0x100_0000_0000 + f * 0x100_0000 + l, 24, 16) == f
  {
    hide Pow2;
    Pow2Values();
    ShlIsProduct(q * 0x1_0000 + f, 24);
    SplitUnique(q * 0x1_0000 + f, l, 24);
    ShlIsProduct(q, 16);
    SplitUnique(q, f, 16);
  }

  lemma Pow2Of33()
    ensures Pow2(33) == FLIP
  {
    Pow2Values();
    Pow2Byte(24);
    assert Pow2(33) == 2 * Pow2(32);
  }

  /** Flipping the marker bit subtracts it and removes the marker. */
  lemma FlipMarker(v: nat)
    requires HasMarker(v)
    ensures v >= FLIP && Xor(v, FLIP) == v - FLIP
    ensures !HasMarker(v - FLIP) && v - FLIP > 0x100_0000
    ensures Field(v - FLIP, 24, 16) == 0xfdfe
  {
    var q, l := MarkedParts(v);
    FieldOfParts(q, 0xfdfe, l);
    var h, lo := q * 128 + 127, 0x1fe * 0x100_0000 + l;
    FlipBit33(h, lo);
    assert v == h * FLIP + lo;
  }

  lemma FlipBit33(h: nat, lo: nat)
    requires h % 2 == 1 && lo < FLIP
    ensures Xor(h * FLIP + lo, FLIP) == (h - 1) * FLIP + lo
  {
    hide Pow2, Shl;
    Pow2Of33();
    ShlIsProduct(h, 33);
    ShlIsProduct(1, 33);
    ShlIsProduct(h - 1, 33);
    XorHigh(h, lo, 1, 33);
    XorZero(h / 2);
    assert Xor(h, 1) == 2 * Xor(h / 2, 0);
  }

  /** The all-ones value never carries the marker. */
  lemma OnesUnmarked(total: nat)
    requires total >= 40
    ensures Field(Pow2(total) - 1, 24, 16) == 0xffff
  {
    hide Pow2, Field;
    Pow2Values();
    MaskField(total, 24, 16);
  }

  lemma SmallUnmarked(v: nat)
    requires v < 0x100_0000
    ensures !HasMarker(v)
  {
    hide Pow2, Low, Shr;
    Pow2Values();
    LowOfSmall(v, 24);
    LowOfSmall(0, 16);
  }

  lemma RepairedMeaning(x: nat, total: nat)
    requires x < Pow2(total)
    ensures Repaired(x, total) < Pow2(total)
    ensures CleanHost(Repaired(x, total), total)
    ensures CleanHost(x, total) <==> Repaired(x, total) == x
  {
    if total >= 40 {
      WideSpace(total);
      if HasMarker(x) {
        FlipMarker(x);
      }
    } else if total > 2 {
      Pow2Monotone(3, total);
    }
  }

  lemma WideSpace(total: nat)
    requires total >= 40
    ensures Pow2(total) >= 0x100_0000_0000
    ensures Field(Pow2(total) - 1, 24, 16) == 0xffff
    ensures !HasMarker(0) && !HasMarker(1) && !HasMarker(2) && !HasMarker(Pow2(total) - 1)
  {
    hide Pow2, Field;
    Pow2Values();
    Pow2Monotone(40, total);
    OnesUnmarked(total);
    SmallUnmarked(0);
    SmallUnmarked(1);
    SmallUnmarked(2);
  }

  /** The result stays in the host space, is clean, and clean values pass unchanged. */
  lemma SanitizedMeaning(v: nat, total: nat)
    ensures Sanitized(v, total) < Pow2(total)
    ensures CleanHost(Sanitized(v, total), total)
    ensures CleanHost(Low(v, total), total) <==> Sanitized(v, total) == Low(v, total)
    ensures Sanitized(Sanitized(v, total), total) == Sanitized(v, total)
  {
    Split(v, total);
    RepairedMeaning(Low(v, total), total);
    var s := Sanitized(v, total);
    LowOfSmall(s, total);
    RepairedMeaning(s, total);
  }

  lemma RepairsMeaning(v: nat, total: nat)
    ensures Repairs(v, total) <= 3
    ensures Repairs(v, total) == 0 <==> CleanHost(v, total)
  {
  }

  lemma MarkerRepair(v: nat, total: nat)
    requires 40 <= total && v < Pow2(total) && HasMarker(v)
    ensures v >= FLIP && Xor(v, FLIP) == v - FLIP
    ensures Repairs(v, total) == 1 && Repairs(v - FLIP, total) == 0
    ensures Repaired(v - FLIP, total) == Repaired(v, total)
  {
    FlipMarker(v);
    WideSpace(total);
  }

  lemma ReservedRepair(v: nat, total: nat)
    requires 2 < total && v < Pow2(total) && ReservedHost(v, total)
    ensures Repairs(Low(v + 1, total), total) < Repairs(v, total)
    ensures Repaired(Low(v + 1, total), total) == Repaired(v, total)
  {
    NextReserved(v, total);
    Pow2Monotone(3, total);
    if total >= 40 {
      WideSpace(total);
    }
  }

  lemma NextReserved(v: nat, total: nat)
    requires total > 2 && ReservedHost(v, total)
    ensures Low(v + 1, total) == if v == Pow2(total) - 1 then 0 else v + 1
    ensures Low(Low(v + 1, total), total) == Low(v + 1, total)
  {
    Pow2Monotone(3, total);
    LowLow(v + 1, total, total);
    if v == Pow2(total) - 1 {
      ShlOfPow2(0, total);
      SplitUnique(1, 0, total);
    } else {
      LowOfSmall(v + 1, total);
    }
  }

  method SanitizeHost(raw: Word, mask: Word, total: nat) returns (v: Word)
    requires 0 < total <= 64 && mask == Pow2(total) - 1
    ensures v == Sanitized(raw, total)
  {
    v := And64(raw, mask);
    AndMask(raw, total);
    Split(raw, total);
    RepairsMeaning(v, total);
    var i := 0;
    while i < 8
      invariant i <= 8 && v < Pow2(total)
      invariant Repaired(v, total) == Sanitized(raw, total)
      invariant i + Repairs(v, total) <= 8
    {
      EUI64IsMarker(v);
      if total >= 40 && IsEUI64(v) {
        MarkerRepair(v, total);
        v := Xor64(v, FLIP);
        AndMask(v, total);
        LowOfSmall(v, total);
        v := And64(v, mask);
      } else if total > 2 && (v == 0 || v == 1 || v == mask) {
        ReservedRepair(v, total);
        WrappedIncrement(v, total);
        v := Add64(v, 1);
        AndMask(v, total);
        Split(v, total);
        v := And64(v, mask);
      } else {
        return;
      }
      i := i + 1;
    }
    RepairsMeaning(v, total);
    RepairedMeaning(v, total);
  }

  lemma EUI64IsMarker(v: Word)
    ensures IsEUI64(v) <==> HasMarker(v)
  {
    Pow2Values();
    AndMask(Shr(v, 24), 16);
  }

  lemma WrappedIncrement(v: Word, total: nat)
    requires total <= 64
    ensures Low(Add64(v, 1), total) == Low(v + 1, total)
  {
    hide Low;
    if v == W64 - 1 {
      Pow2Values();
      ShlOfPow2(total, 64 - total);
      ShlShl(1, 64 - total, total);
      ShlOfPow2(0, 64);
      LowAddMultiple(0, Pow2(64 - total), total);
      ShlOfPow2(64 - total, total);
    }
  }

  // ----- IPForAcct -----

  /** `seq ^ seed ^ domain`. */
  function MixKey(p: Pool, n: Word, domain: Word): Word { Xor64(Xor64(n, p.seed), domain) }

  /** The raw host of a narrow pool, before masking and repair. */
  function RawHost(sub: Word, start: Word, size: Word): Word {
    if size > 0 then Add64(start, sub % size) else sub
  }

  /** The host number IPForAcct writes below the prefix. */
  function SlicedHost(p: Pool, n: Word, domain: Word, start: Word, size: Word): nat
    requires p.Valid()
  {
    var mix := MixKey(p, n, domain);
    KeyedHost(p.bits, RawHost(SplitMix64(mix), start, size), SplitMix64(Xor64(mix, GOLD)))
  }

  /** Narrow pools repair the raw value itself; wide pools put it in the subnet field
      above a repaired interface identifier. */
  function KeyedHost(bits: nat, raw: Word, iid: Word): nat
    requires bits <= 128
  {
    if bits >= 64 then Sanitized(raw, 128 - bits)
    else Shl(Low(raw, 64 - bits), 64) + Sanitized(iid, 64)
  }

  lemma KeyedHostBound(bits: nat, raw: Word, iid: Word)
    requires bits <= 128
    ensures KeyedHost(bits, raw, iid) < Pow2(128 - bits)
  {
    hide Pow2, Low, Shl, Shr, HasMarker;
    if bits >= 64 {
      SanitizedMeaning(raw, 128 - bits);
    } else {
      Split(raw, 64 - bits);
      SanitizedMeaning(iid, 64);
      JoinBound(Low(raw, 64 - bits), 64 - bits, Sanitized(iid, 64), 64);
    }
  }

  function SlicedAddr(p: Pool, n: Word, domain: Word, start: Word, size: Word): Addr
    requires p.Valid()
  {
    if p.bits == 128 then p.prefix
    else FromNum(Shl(Group(p.prefix, p.bits), 128 - p.bits) + SlicedHost(p, n, domain, start, size))
  }

  method IPForNarrow(sub: Word, start: Word, size: Word, total: nat, prefix: Addr) returns (addr: Addr)
    requires 0 < total <= 64
    ensures addr == FromNum(Shl(Group(prefix, 128 - total), total) + Sanitized(RawHost(sub, start, size), total))
  {
    hide Repaired, FromNum, Group, Shl, Shr, Low, Bitwise, ToBE, Pow2;
    addr := prefix;
    var prefixLo := LoWord(addr);
    var hostMask, preserveMask: Word;
    Pow2Values();
    if total >= 64 {
      hostMask, preserveMask := Not64(0), 0;
    } else {
      OnesMask(total);
      hostMask, preserveMask := Sub64(Shl64(1, total), 1), Shl64(Not64(0), total);
    }
    var host: Word;
    if size > 0 {
      host := Add64(start, sub % size);
    } else {
      host := And64(sub, hostMask);
      AndMask(sub, total);
      LowLow(sub, total, total);
    }
    host := SanitizeHost(host, hostMask, total);
    SanitizedMeaning(RawHost(sub, start, size), total);
    KeptPrefix(prefixLo, preserveMask, total);
    OrDisjoint(Shr(prefixLo, total), host, total);
    var word := Or64(And64(prefixLo, preserveMask), host);
    addr := addr[..8] + ToBE(word, 8);
    NarrowNum(prefix, addr, total, host);
  }

  lemma KeptPrefix(x: Word, preserve: Word, total: nat)
    requires total <= 64
    requires preserve == if total == 64 then 0 else Shl64(Not64(0), total)
    ensures And(x, preserve) == Shl(Shr(x, total), total)
  {
    if total == 64 {
      AndZero(x);
      Pow2Values();
      LowOfSmall(x, 64);
      ShlIsProduct(0, 64);
    } else {
      AndHigh(x, total);
    }
  }

  /** Prefix words above, host below: the number they spell. */
  lemma NarrowNum(prefix: Addr, addr: Addr, total: nat, host: nat)
    requires total <= 64 && host < Pow2(total)
    requires Shl(Shr(LoWord(prefix), total), total) + host < W64
    requires addr == prefix[..8] + ToBE(Shl(Shr(LoWord(prefix), total), total) + host, 8)
    ensures addr == FromNum(Shl(Group(prefix, 128 - total), total) + host)
  {
    hide Pow2, Low, Shl, Shr, ToBE, BE;
    var hi, lo := HiWord(prefix), LoWord(prefix);
    assert addr[..8] == prefix[..8];
    Pow2Values();
    DecodeEncode(Shl(Shr(lo, total), total) + host, 8);
    NumWords(addr);
    NumWords(prefix);
    ShrJoined(hi, lo, 64 - total, total);
    ShlAdd(Shl(hi, 64 - total), Shr(lo, total), total);
    ShlShl(hi, 64 - total, total);
    FromNumNum(addr);
  }

  method IPForWide(sub: Word, iid: Word, start: Word, size: Word, bits: nat, prefix: Addr) returns (addr: Addr)
    requires bits < 64
    ensures addr == FromNum(Shl(Group(prefix, bits), 128 - bits) + KeyedHost(bits, RawHost(sub, start, size), iid))
  {
    hide Sanitized, FromNum, Group, Shl, Shr, Low, Bitwise, ToBE;
    addr := prefix;
    var highPart := 64 - bits;
    var subnetMask := Not64(0);
    assert Pow2(64) == W64 by { Pow2Values(); }
    if highPart < 64 {
      OnesMask(highPart);
      subnetMask := Sub64(Shl64(1, highPart), 1);
    }
    var raw := if size > 0 then Add64(start, sub % size) else sub;
    var subnet := And64(raw, subnetMask);
    var preserve: Word := 0;
    if highPart < 64 {
      preserve := Shl64(Not64(0), highPart);
    }
    var hi := HiWord(addr);
    SubnetWord(hi, preserve, raw, subnetMask, highPart);
    var low := SanitizeHost(iid, Not64(0), 64);
    addr := ToBE(Or64(And64(hi, preserve), subnet), 8) + addr[8..];
    addr := addr[..8] + ToBE(low, 8);
    WideNum(prefix, addr, highPart, subnet, low);
  }

  lemma SubnetWord(hi: Word, preserve: Word, raw: Word, mask: Word, hp: nat)
    requires 0 < hp <= 64 && mask == Pow2(hp) - 1
    requires preserve == if hp == 64 then 0 else Shl64(Not64(0), hp)
    ensures And64(raw, mask) == Low(raw, hp) < Pow2(hp)
    ensures Or64(And64(hi, preserve), And64(raw, mask)) == Shl(Shr(hi, hp), hp) + Low(raw, hp)
  {
    AndMask(raw, hp);
    Split(raw, hp);
    KeptPrefix(hi, preserve, hp);
    OrDisjoint(Shr(hi, hp), Low(raw, hp), hp);
  }

  lemma WideNum(prefix: Addr, addr: Addr, hp: nat, subnet: nat, low: Word)
    requires hp <= 64 && subnet < Pow2(hp)
    requires Shl(Shr(HiWord(prefix), hp), hp) + subnet < W64
    requires addr == ToBE(Shl(Shr(HiWord(prefix), hp), hp) + subnet, 8) + ToBE(low, 8)
    ensures addr == FromNum(Shl(Group(prefix, 64 - hp), 64 + hp) + (Shl(subnet, 64) + low))
  {
    hide Pow2, Shl, Shr, ToBE;
    var hi := HiWord(prefix);
    var top := Shl(Shr(hi, hp), hp);
    FromWords(top + subnet, low, addr);
    ShlAdd(top, subnet, 64);
    ShlShl(Shr(hi, hp), hp, 64);
    NumWords(prefix);
    ShrShr(Num(prefix), 64, hp);
  }

  lemma FromWords(hi: Word, lo: Word, addr: Addr)
    requires addr == ToBE(hi, 8) + ToBE(lo, 8)
    ensures addr == FromNum(Shl(hi, 64) + lo)
  {
    hide Pow2, ToBE, BE, Shl;
    Pow2Values();
    assert addr[..8] == ToBE(hi, 8) && addr[8..] == ToBE(lo, 8);
    DecodeEncode(hi, 8);
    DecodeEncode(lo, 8);
    NumWords(addr);
    FromNumNum(addr);
  }

  /** IPForAcct computes the sliced address. */
  method IPForAcct(p: Pool, n: Word, domain: Word, start: Word, size: Word) returns (addr: Addr)
    requires p.Valid()
    ensures addr == SlicedAddr(p, n, domain, start, size)
  {
    hide SplitMix64, FromNum, Group, Shl, Low, Repaired, Bitwise;
    var total := 128 - p.bits;
    if total <= 0 {
      return p.prefix;
    }
    var mix := Xor64(Xor64(n, p.seed), domain);
    var sub := SplitMix64(mix);
    if total <= 64 {
      addr := IPForNarrow(sub, start, size, total, p.prefix);
    } else {
      addr := IPForWide(sub, SplitMix64(Xor64(mix, GOLD)), start, size, p.bits, p.prefix);
    }
  }

  lemma SlicedHostBound(p: Pool, n: Word, domain: Word, start: Word, size: Word)
    requires p.Valid()
    ensures SlicedHost(p, n, domain, start, size) < Pow2(128 - p.bits)
  {
    var mix := MixKey(p, n, domain);
    KeyedHostBound(p.bits, RawHost(SplitMix64(mix), start, size), SplitMix64(Xor64(mix, GOLD)));
  }

  /** Every sliced address lies in the prefix and carries its host number. */
  lemma SlicedAddrParts(p: Pool, n: Word, domain: Word, start: Word, size: Word)
    requires p.Valid()
    ensures InPrefix(SlicedAddr(p, n, domain, start, size), p.prefix, p.bits)
    ensures p.bits < 128 ==>
              Low(Num(SlicedAddr(p, n, domain, start, size)), 128 - p.bits) == SlicedHost(p, n, domain, start, size)
  {
    hide Pow2, Low, Shl, Bitwise, SplitMix64, ToBE;
    if p.bits < 128 {
      var g, h, w := Group(p.prefix, p.bits), SlicedHost(p, n, domain, start, size), 128 - p.bits;
      SlicedHostBound(p, n, domain, start, size);
      GroupBound(p.prefix, p.bits);
      JoinBound(g, p.bits, h, w);
      Pow2Values();
      NumFromNum(Shl(g, w) + h);
      SplitUnique(g, h, w);
    }
  }

  /** Sliced addresses are equal exactly when their host numbers are. */
  lemma SlicedAddrInjective(p: Pool, n: Word, domain: Word, start: Word, size: Word,
                            n': Word, domain': Word, start': Word, size': Word)
    requires p.Valid() && p.bits < 128
    ensures SlicedAddr(p, n, domain, start, size) == SlicedAddr(p, n', domain', start', size')
       <==> SlicedHost(p, n, domain, start, size) == SlicedHost(p, n', domain', start', size')
  {
    hide Low, Shl, SlicedHost, ToBE, BE, Pow2;
    SlicedAddrParts(p, n, domain, start, size);
    SlicedAddrParts(p, n', domain', start', size');
  }
}

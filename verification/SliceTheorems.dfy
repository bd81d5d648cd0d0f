/** When sliced accounts collide, and when they never do. */
module SliceTheorems {
  import opened Words
  import opened Mixer
  import opened Hygiene
  import opened Streams
  import opened Slices

  predicate InSlice(v: int, start: nat, size: nat) { start <= v < start + size }

  /** Slices carved from a field of n bits. */
  predicate InRange(start: nat, size: nat, n: nat) { size > 0 && start + size <= Pow2(n) }

  predicate Apart(start: nat, size: nat, start': nat, size': nat) {
    start + size <= start' || start' + size' <= start
  }

  // ----- every host of a slice is drawn by some sequence number -----

  /** The sequence number that makes the mixer produce r. */
  function SeqFor(p: Pool, domain: Word, r: Word): Word { Xor64(Xor64(Unmix64(r), domain), p.seed) }

  lemma SeqForMeaning(p: Pool, domain: Word, r: Word)
    ensures SplitMix64(MixKey(p, SeqFor(p, domain, r), domain)) == r
  {
    XorCancel(Xor64(Unmix64(r), domain), p.seed);
    XorCancel(Unmix64(r), domain);
    MixUnmix(r);
  }

  lemma RawOfSmall(r: Word, start: Word, size: Word)
    requires r < size && start + r < W64
    ensures RawHost(r, start, size) == start + r
  {
    DivModUnique(r, 0, size, r);
  }

  /** An in-range slice never wraps, and its raw hosts stay in it. */
  lemma RawInSlice(sub: Word, start: Word, size: Word, n: nat)
    requires n <= 64 && InRange(start, size, n)
    ensures InSlice(RawHost(sub, start, size), start, size)
    ensures Low(RawHost(sub, start, size), n) == RawHost(sub, start, size)
  {
    Pow2Values();
    Pow2Monotone(n, 64);
    LowOfSmall(RawHost(sub, start, size), n);
  }

  // ----- which hosts are repaired to the same value -----

  /** The values that end up as 2 in a space with reserved hosts. */
  predicate NearReserved(v: nat, total: nat) { v == 2 || ReservedHost(v, total) }

  predicate RepairsOnto(v: nat, w: nat) { HasMarker(v) && v == w + FLIP }

  lemma SameRepairIff(v: nat, w: nat, total: nat)
    requires v < Pow2(total) && w < Pow2(total) && v != w
    ensures Repaired(v, total) == Repaired(w, total)
       <==> (total > 2 && NearReserved(v, total) && NearReserved(w, total))
            || (total >= 40 && (RepairsOnto(v, w) || RepairsOnto(w, v)))
  {
    hide Pow2, Low, Shr;
    if total >= 40 {
      WideSpace(total);
      if HasMarker(v) {
        FlipMarker(v);
        MarkedRepairIff(v, w, total);
        if HasMarker(w) {
          FlipMarker(w);
        }
      } else if HasMarker(w) {
        FlipMarker(w);
        MarkedRepairIff(w, v, total);
      }
    } else if total > 2 {
      Pow2Monotone(3, total);
    }
  }

  lemma MarkedRepairIff(v: nat, w: nat, total: nat)
    requires 40 <= total && v < Pow2(total) && w < Pow2(total) && v != w && HasMarker(v)
    ensures Repaired(v, total) == Repaired(w, total) <==> v == w + FLIP
    ensures !NearReserved(v, total) && (v == w + FLIP ==> !HasMarker(w))
  {
    hide Pow2, HasMarker, Field;
    WideSpace(total);
    FlipMarker(v);
    if HasMarker(w) {
      FlipMarker(w);
    }
  }

  // ----- disjointness -----

  /** Two in-range narrow slices that lie apart and still share an address. */
  predicate Clash(total: nat, start: nat, size: nat, start': nat, size': nat) {
    (total > 2 && HoldsReserved(total, start, size) && HoldsReserved(total, start', size'))
    || (total >= 40 && (MarkerFallsInto(start, size, start', size') || MarkerFallsInto(start', size', start, size)))
  }

  /** The slice contains 0, 1, 2 or the all-ones host. */
  predicate HoldsReserved(total: nat, start: nat, size: nat) {
    InSlice(0, start, size) || InSlice(1, start, size) || InSlice(2, start, size)
    || InSlice(Pow2(total) - 1, start, size)
  }

  /** The slice contains a marker value whose repaired form lies in the other slice. */
  predicate MarkerFallsInto(start: nat, size: nat, start': nat, size': nat) {
    exists v: nat | start <= v < start + size :: HasMarker(v) && InSlice(v - FLIP, start', size')
  }

  ghost predicate DisjointAddresses(p: Pool, domain: Word, start: Word, size: Word,
                                    domain': Word, start': Word, size': Word)
    requires p.Valid()
  {
    forall n: Word, n': Word ::
      SlicedAddr(p, n, domain, start, size) != SlicedAddr(p, n', domain', start', size')
  }

  /** Wide pools: accounts with disjoint subnet slices never share an address. */
  lemma WideSlicesDisjoint(p: Pool, domain: Word, start: Word, size: Word,
                           domain': Word, start': Word, size': Word)
    requires p.Valid() && p.bits < 64
    requires InRange(start, size, 64 - p.bits) && InRange(start', size', 64 - p.bits)
    requires Apart(start, size, start', size')
    ensures DisjointAddresses(p, domain, start, size, domain', start', size')
  {
    hide Pow2, Low, Shl, Bitwise;
    forall n: Word, n': Word
      ensures SlicedAddr(p, n, domain, start, size) != SlicedAddr(p, n', domain', start', size')
    {
      var r, r' := RawHost(SplitMix64(MixKey(p, n, domain)), start, size),
                   RawHost(SplitMix64(MixKey(p, n', domain')), start', size');
      RawInSlice(SplitMix64(MixKey(p, n, domain)), start, size, 64 - p.bits);
      RawInSlice(SplitMix64(MixKey(p, n', domain')), start', size', 64 - p.bits);
      SlicedAddrInjective(p, n, domain, start, size, n', domain', start', size');
      WideHostParts(p.bits, r, SplitMix64(Xor64(MixKey(p, n, domain), GOLD)));
      WideHostParts(p.bits, r', SplitMix64(Xor64(MixKey(p, n', domain'), GOLD)));
    }
  }

  lemma WideHostParts(bits: nat, raw: Word, iid: Word)
    requires bits < 64
    ensures Shr(KeyedHost(bits, raw, iid), 64) == Low(raw, 64 - bits)
    ensures Low(KeyedHost(bits, raw, iid), 64) == Sanitized(iid, 64)
  {
    hide Pow2, Low, Shr, HasMarker;
    SanitizedMeaning(iid, 64);
    SplitUnique(Low(raw, 64 - bits), Sanitized(iid, 64), 64);
  }

  lemma HoldsReservedIff(total: nat, start: nat, size: nat)
    ensures HoldsReserved(total, start, size) <==> exists v: nat :: InSlice(v, start, size) && NearReserved(v, total)
  {
    if HoldsReserved(total, start, size) {
      var v: nat := if InSlice(0, start, size) then 0 else if InSlice(1, start, size) then 1
                    else if InSlice(2, start, size) then 2 else Pow2(total) - 1;
      assert InSlice(v, start, size) && NearReserved(v, total);
    }
  }

  /** A clash is exactly a pair of hosts, one from each slice, with the same repair. */
  lemma ClashIff(total: nat, start: nat, size: nat, start': nat, size': nat)
    requires InRange(start, size, total) && InRange(start', size', total)
    requires Apart(start, size, start', size')
    ensures Clash(total, start, size, start', size')
       <==> exists v: nat, w: nat :: InSlice(v, start, size) && InSlice(w, start', size')
                                     && Repaired(v, total) == Repaired(w, total)
  {
    HoldsReservedIff(total, start, size);
    HoldsReservedIff(total, start', size');
    if Clash(total, start, size, start', size') {
      var v, w := ClashingHosts(total, start, size, start', size');
      assert InSlice(v, start, size) && InSlice(w, start', size') && Repaired(v, total) == Repaired(w, total);
    }
    forall v: nat, w: nat | InSlice(v, start, size) && InSlice(w, start', size')
                            && Repaired(v, total) == Repaired(w, total)
      ensures Clash(total, start, size, start', size')
    {
      SameRepairIff(v, w, total);
      if RepairsOnto(v, w) {
        assert InSlice(v - FLIP, start', size');
      }
      if RepairsOnto(w, v) {
        assert InSlice(w - FLIP, start, size);
      }
    }
  }

  lemma ClashingHosts(total: nat, start: nat, size: nat, start': nat, size': nat) returns (v: nat, w: nat)
    requires InRange(start, size, total) && InRange(start', size', total)
    requires Apart(start, size, start', size')
    requires Clash(total, start, size, start', size')
    ensures InSlice(v, start, size) && InSlice(w, start', size') && Repaired(v, total) == Repaired(w, total)
  {
    HoldsReservedIff(total, start, size);
    HoldsReservedIff(total, start', size');
    if total > 2 && HoldsReserved(total, start, size) && HoldsReserved(total, start', size') {
      v :| InSlice(v, start, size) && NearReserved(v, total);
      w :| InSlice(w, start', size') && NearReserved(w, total);
    } else if MarkerFallsInto(start, size, start', size') {
      v :| start <= v < start + size && HasMarker(v) && InSlice(v - FLIP, start', size');
      w := v - FLIP;
    } else {
      w :| start' <= w < start' + size' && HasMarker(w) && InSlice(w - FLIP, start, size);
      v := w - FLIP;
    }
    SameRepairIff(v, w, total);
  }

  /** Narrow pools: accounts with disjoint slices share no address exactly when the
      slices do not clash. */
  lemma NarrowSlicesDisjointIff(p: Pool, domain: Word, start: Word, size: Word,
                                domain': Word, start': Word, size': Word)
    requires p.Valid() && 64 <= p.bits < 128
    requires InRange(start, size, 128 - p.bits) && InRange(start', size', 128 - p.bits)
    requires Apart(start, size, start', size')
    ensures DisjointAddresses(p, domain, start, size, domain', start', size')
       <==> !Clash(128 - p.bits, start, size, start', size')
  {
    var total := 128 - p.bits;
    ClashIff(total, start, size, start', size');
    if Clash(total, start, size, start', size') {
      var v, w := ClashingHosts(total, start, size, start', size');
      MeetingDraws(p, domain, start, size, domain', start', size', v, w);
    } else {
      forall n: Word, n': Word
        ensures SlicedAddr(p, n, domain, start, size) != SlicedAddr(p, n', domain', start', size')
      {
        SlicedAddrInjective(p, n, domain, start, size, n', domain', start', size');
        NarrowDraw(p, n, domain, start, size);
        NarrowDraw(p, n', domain', start', size');
      }
    }
  }

  lemma NarrowDraw(p: Pool, n: Word, domain: Word, start: Word, size: Word)
    requires p.Valid() && 64 <= p.bits < 128 && InRange(start, size, 128 - p.bits)
    ensures exists v: nat :: InSlice(v, start, size)
                             && SlicedHost(p, n, domain, start, size) == Repaired(v, 128 - p.bits)
  {
    var sub := SplitMix64(MixKey(p, n, domain));
    RawInSlice(sub, start, size, 128 - p.bits);
    assert InSlice(RawHost(sub, start, size), start, size);
  }

  lemma MeetingDraws(p: Pool, domain: Word, start: Word, size: Word,
                     domain': Word, start': Word, size': Word, v: nat, w: nat)
    requires p.Valid() && 64 <= p.bits < 128
    requires InRange(start, size, 128 - p.bits) && InRange(start', size', 128 - p.bits)
    requires InSlice(v, start, size) && InSlice(w, start', size')
    requires Repaired(v, 128 - p.bits) == Repaired(w, 128 - p.bits)
    ensures !DisjointAddresses(p, domain, start, size, domain', start', size')
  {
    var n := DrawOf(p, domain, start, size, v);
    var n' := DrawOf(p, domain', start', size', w);
    SlicedAddrInjective(p, n, domain, start, size, n', domain', start', size');
    assert SlicedAddr(p, n, domain, start, size) == SlicedAddr(p, n', domain', start', size');
  }

  /** Every host of a slice, repaired, is some sequence number's host. */
  lemma DrawOf(p: Pool, domain: Word, start: Word, size: Word, v: nat) returns (n: Word)
    requires p.Valid() && 64 <= p.bits < 128
    requires InRange(start, size, 128 - p.bits) && InSlice(v, start, size)
    ensures SlicedHost(p, n, domain, start, size) == Repaired(v, 128 - p.bits)
  {
    hide Pow2, KeyedHost, Repaired, SlicedHost;
    Pow2Values();
    Pow2Monotone(128 - p.bits, 64);
    var iid: Word;
    n, iid := DrawHost(p, domain, start, size, v - start);
    NarrowKeyedHost(p.bits, v, iid);
  }

  lemma DrawHost(p: Pool, domain: Word, start: Word, size: Word, r: Word) returns (n: Word, iid: Word)
    requires p.Valid() && r < size && start + r < W64
    ensures SlicedHost(p, n, domain, start, size) == KeyedHost(p.bits, start + r, iid)
  {
    hide Low, Bitwise;
    n := SeqFor(p, domain, r);
    iid := SplitMix64(Xor64(MixKey(p, n, domain), GOLD));
    SeqForMeaning(p, domain, r);
    RawOfSmall(r, start, size);
  }

  lemma NarrowKeyedHost(bits: nat, v: Word, iid: Word)
    requires 64 <= bits < 128 && v < Pow2(128 - bits)
    ensures KeyedHost(bits, v, iid) == Repaired(v, 128 - bits)
  {
    LowOfSmall(v, 128 - bits);
  }

  // ----- staying in the slice -----

  ghost predicate KeptInSlice(p: Pool, domain: Word, start: Word, size: Word)
    requires p.Valid()
  {
    forall n: Word :: InSlice(SlicedHost(p, n, domain, start, size), start, size)
  }

  /** Repair carries some host of the slice out of it. */
  predicate Escapes(total: nat, start: nat, size: nat) {
    (total > 2 && !InSlice(2, start, size)
     && (InSlice(0, start, size) || InSlice(1, start, size) || InSlice(Pow2(total) - 1, start, size)))
    || (total >= 40 && exists v: nat | start <= v < start + size :: HasMarker(v) && v - FLIP < start)
  }

  lemma EscapesIff(total: nat, start: nat, size: nat)
    requires InRange(start, size, total)
    ensures Escapes(total, start, size)
       <==> exists v: nat :: InSlice(v, start, size) && !InSlice(Repaired(v, total), start, size)
  {
    if total >= 40 {
      WideSpace(total);
    } else if total > 2 {
      Pow2Monotone(3, total);
    }
    if Escapes(total, start, size) {
      var v := EscapingHost(total, start, size);
    }
    forall v: nat | InSlice(v, start, size) && !InSlice(Repaired(v, total), start, size)
      ensures Escapes(total, start, size)
    {
      if total >= 40 && HasMarker(v) {
        FlipMarker(v);
      }
    }
  }

  lemma EscapingHost(total: nat, start: nat, size: nat) returns (v: nat)
    requires InRange(start, size, total) && Escapes(total, start, size)
    ensures InSlice(v, start, size) && !InSlice(Repaired(v, total), start, size)
  {
    if total >= 40 {
      WideSpace(total);
    }
    if total > 2 && !InSlice(2, start, size) && InSlice(0, start, size) {
      v := 0;
    } else if total > 2 && !InSlice(2, start, size) && InSlice(1, start, size) {
      v := 1;
    } else if total > 2 && !InSlice(2, start, size) && InSlice(Pow2(total) - 1, start, size) {
      v := Pow2(total) - 1;
    } else {
      v :| start <= v < start + size && HasMarker(v) && v - FLIP < start;
      FlipMarker(v);
    }
  }

  /** Narrow pools: a sliced account never leaves its slice exactly when repair maps no
      host of the slice out of it. */
  lemma NarrowSliceKeptIff(p: Pool, domain: Word, start: Word, size: Word)
    requires p.Valid() && 64 <= p.bits < 128 && InRange(start, size, 128 - p.bits)
    ensures KeptInSlice(p, domain, start, size) <==> !Escapes(128 - p.bits, start, size)
  {
    hide SlicedHost, Repaired, Escapes;
    var total := 128 - p.bits;
    EscapesIff(total, start, size);
    if Escapes(total, start, size) {
      var v := EscapingHost(total, start, size);
      var n := DrawOf(p, domain, start, size, v);
    } else {
      forall n: Word
        ensures InSlice(SlicedHost(p, n, domain, start, size), start, size)
      {
        NarrowDraw(p, n, domain, start, size);
      }
    }
  }

  /** Wide pools: the subnet always stays in the slice. */
  lemma WideSliceKept(p: Pool, n: Word, domain: Word, start: Word, size: Word)
    requires p.Valid() && p.bits < 64 && InRange(start, size, 64 - p.bits)
    ensures InSlice(Shr(SlicedHost(p, n, domain, start, size), 64), start, size)
  {
    var mix := MixKey(p, n, domain);
    RawInSlice(SplitMix64(mix), start, size, 64 - p.bits);
    WideHostParts(p.bits, RawHost(SplitMix64(mix), start, size), SplitMix64(Xor64(mix, GOLD)));
  }

  // ----- unsliced draws -----

  /** The 64-bit value a draw puts in the interface identifier, before repair. */
  function RawIID(p: Pool, n: Word, domain: Word): Word {
    if p.bits < 64 then SplitMix64(Xor64(MixKey(p, n, domain), GOLD)) else SplitMix64(MixKey(p, n, domain))
  }

  lemma RawIIDInjective(p: Pool, n: Word, n': Word, domain: Word)
    requires n != n'
    ensures RawIID(p, n, domain) != RawIID(p, n', domain)
  {
    XorInjective(n, n', p.seed);
    XorInjective(Xor64(n, p.seed), Xor64(n', p.seed), domain);
    var k, k' := MixKey(p, n, domain), MixKey(p, n', domain);
    XorInjective(k, k', GOLD);
    MixInjective(k, k');
    MixInjective(Xor64(k, GOLD), Xor64(k', GOLD));
  }

  /** Different 64-bit values that repair makes equal. */
  predicate Merged(v: nat, w: nat) {
    (NearReserved(v, 64) && NearReserved(w, 64)) || RepairsOnto(v, w) || RepairsOnto(w, v)
  }

  /** The subnet a draw falls into; a /64 has only one. */
  function SubnetOf(p: Pool, n: Word, domain: Word, start: Word, size: Word): nat
    requires p.bits <= 64
  {
    Low(RawHost(SplitMix64(MixKey(p, n, domain)), start, size), 64 - p.bits)
  }

  /** Wide pools, and the unsliced /64: two sequence numbers share an address exactly when
      they fall into one subnet and repair makes their identifiers equal. */
  lemma DrawsRepeatIff(p: Pool, n: Word, n': Word, domain: Word, start: Word, size: Word)
    requires p.Valid() && (p.bits < 64 || (p.bits == 64 && size == 0)) && n != n'
    ensures SlicedAddr(p, n, domain, start, size) == SlicedAddr(p, n', domain, start, size)
       <==> SubnetOf(p, n, domain, start, size) == SubnetOf(p, n', domain, start, size)
            && Merged(RawIID(p, n, domain), RawIID(p, n', domain))
  {
    hide Pow2, Low, SplitMix64, HasMarker, SlicedAddr, SlicedHost, Repaired, RawIID, RepairsOnto, NearReserved;
    var i, i' := RawIID(p, n, domain), RawIID(p, n', domain);
    RawIIDInjective(p, n, n', domain);
    SlicedAddrInjective(p, n, domain, start, size, n', domain, start, size);
    HostOfDraw(p, n, domain, start, size);
    HostOfDraw(p, n', domain, start, size);
    Pow2Values();
    LowOfSmall(i, 64);
    LowOfSmall(i', 64);
    SameRepairIff(i, i', 64);
  }

  /** A draw's host is its subnet and its repaired identifier. */
  lemma HostOfDraw(p: Pool, n: Word, domain: Word, start: Word, size: Word)
    requires p.Valid() && (p.bits < 64 || (p.bits == 64 && size == 0))
    ensures Shr(SlicedHost(p, n, domain, start, size), 64) == SubnetOf(p, n, domain, start, size)
    ensures Low(SlicedHost(p, n, domain, start, size), 64) == Sanitized(RawIID(p, n, domain), 64)
    ensures SlicedHost(p, n, domain, start, size)
         == Shl(SubnetOf(p, n, domain, start, size), 64) + Sanitized(RawIID(p, n, domain), 64)
  {
    hide Pow2, Low, Shr, Shl, SplitMix64, Sanitized;
    var mix := MixKey(p, n, domain);
    LowIID(p, n, domain, start, size);
    Split(SlicedHost(p, n, domain, start, size), 64);
    if p.bits < 64 {
      WideHostParts(p.bits, RawHost(SplitMix64(mix), start, size), SplitMix64(Xor64(mix, GOLD)));
    } else {
      OneSubnet(SplitMix64(mix));
      LowNothing(RawHost(SplitMix64(mix), start, size));
    }
  }

  lemma OneSubnet(sub: Word)
    ensures Shr(Sanitized(sub, 64), 64) == 0
  {
    hide Pow2, Low, Shr, Sanitized;
    SanitizedMeaning(sub, 64);
    LowOfSmall(Sanitized(sub, 64), 64);
  }

  /** Wide pools, and the unsliced /64: two sequence numbers share an address only if
      repair moved one of them. */
  lemma RepeatOnlyAfterRepair(p: Pool, n: Word, n': Word, domain: Word, start: Word, size: Word)
    requires p.Valid() && (p.bits < 64 || (p.bits == 64 && size == 0)) && n != n'
    ensures SlicedAddr(p, n, domain, start, size) == SlicedAddr(p, n', domain, start, size) ==>
              !CleanHost(RawIID(p, n, domain), 64) || !CleanHost(RawIID(p, n', domain), 64)
  {
    hide Pow2, Low, SplitMix64;
    var i, i' := RawIID(p, n, domain), RawIID(p, n', domain);
    RawIIDInjective(p, n, n', domain);
    SlicedAddrInjective(p, n, domain, start, size, n', domain, start, size);
    LowIID(p, n, domain, start, size);
    LowIID(p, n', domain, start, size);
    Pow2Values();
    LowOfSmall(i, 64);
    LowOfSmall(i', 64);
    SanitizedMeaning(i, 64);
    SanitizedMeaning(i', 64);
  }

  lemma LowIID(p: Pool, n: Word, domain: Word, start: Word, size: Word)
    requires p.Valid() && (p.bits < 64 || (p.bits == 64 && size == 0))
    ensures Low(SlicedHost(p, n, domain, start, size), 64) == Sanitized(RawIID(p, n, domain), 64)
  {
    hide Pow2, Low, Shr;
    var mix := MixKey(p, n, domain);
    if p.bits < 64 {
      WideHostParts(p.bits, RawHost(SplitMix64(mix), start, size), SplitMix64(Xor64(mix, GOLD)));
    } else {
      SanitizedMeaning(SplitMix64(mix), 64);
      LowOfSmall(Sanitized(SplitMix64(mix), 64), 64);
    }
  }
}

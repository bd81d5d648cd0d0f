/** When two cycles over one prefix visit the same addresses in the same order. */
module Walks {
  import opened Words
  import opened OddStride
  import opened Cycles
  import opened Hygiene
  import opened Streams
  import opened Draws

  // ----- bit reversal and exclusive or -----

  lemma ReverseXor(a: nat, b: nat, w: nat)
    ensures Reverse(Xor(a, b), w) == Xor(Reverse(a, w), Reverse(b, w))
  {
    hide Pow2, Bit, Bitwise, Reverse;
    var l, r := Reverse(Xor(a, b), w), Xor(Reverse(a, w), Reverse(b, w));
    ReverseBit(Xor(a, b), w, 0);
    ReverseBit(a, w, 0);
    ReverseBit(b, w, 0);
    BitwiseBound(XOR, Reverse(a, w), Reverse(b, w), w);
    forall k | 0 <= k < w
      ensures Bit(l, k) == Bit(r, k)
    {
      ReverseBit(Xor(a, b), w, k);
      BitwiseBit(XOR, a, b, w - 1 - k);
      BitwiseBit(XOR, Reverse(a, w), Reverse(b, w), k);
      ReverseBit(a, w, k);
      ReverseBit(b, w, k);
    }
    BitExt(l, r, w);
  }

  /** How the masks differ, mirrored onto the counters. */
  function Gap(c: Cycle, c': Cycle): nat
    requires c.Valid() && c'.Valid()
  {
    Reverse(MaskGap(c, c'), c.Width())
  }

  function MaskGap(c: Cycle, c': Cycle): nat
    requires c.Valid() && c'.Valid()
  {
    Xor(Low(c.mask, c.Width()), Low(c'.mask, c.Width()))
  }

  lemma GapBound(c: Cycle, c': Cycle)
    requires c.Valid() && c'.Valid()
    ensures MaskGap(c, c') < Pow2(c.Width()) && Gap(c, c') < Pow2(c.Width())
    ensures MaskGap(c, c') == Reverse(Gap(c, c'), c.Width())
  {
    hide Pow2, Low, Reverse, Bitwise;
    var w := c.Width();
    Split(c.mask, w);
    Split(c'.mask, w);
    BitwiseBound(XOR, Low(c.mask, w), Low(c'.mask, w), w);
    ReverseBit(MaskGap(c, c'), w, 0);
    ReverseInvolution(MaskGap(c, c'), w);
    LowOfSmall(MaskGap(c, c'), w);
  }

  /** Two counters have the same host exactly when they differ by the gap. */
  lemma HostsMeetIff(c: Cycle, c': Cycle, p: nat, q: nat)
    requires c.Valid() && c'.Valid() && c.bits == c'.bits
    ensures Host(c, p) == Host(c', q) <==> Low(p, c.Width()) == Xor(Low(q, c.Width()), Gap(c, c'))
  {
    hide Pow2, Low, Reverse, Bitwise;
    var w := c.Width();
    var r, r', m, m' := Reverse(p, w), Reverse(q, w), Low(c.mask, w), Low(c'.mask, w);
    var d := MaskGap(c, c');
    XorAssoc(r', m', m);
    XorComm(m', m);
    assert Xor(Xor(r', m'), m) == Xor(r', d);
    XorCancel(r, m);
    XorCancel(Xor(r', m'), m);
    assert Host(c, p) == Host(c', q) <==> r == Xor(r', d) by {
      XorAssoc(r', d, m);
      assert Xor(Xor(r', d), m) == Xor(Xor(Xor(r', m'), m), m);
    }
    GapBound(c, c');
    ReversedIff(p, q, d, w);
  }

  lemma ReversedIff(p: nat, q: nat, d: nat, w: nat)
    requires d < Pow2(w)
    ensures Reverse(p, w) == Xor(Reverse(q, w), d) <==> Low(p, w) == Xor(Low(q, w), Reverse(d, w))
  {
    hide Pow2, Low, Reverse, Bitwise;
    var r, r' := Reverse(p, w), Reverse(q, w);
    ReverseInvolution(p, w);
    ReverseInvolution(q, w);
    ReverseXor(r', d, w);
    ReverseBit(p, w, 0);
    ReverseBit(q, w, 0);
    BitwiseBound(XOR, r', d, w);
    ReverseInvolution(r, w);
    ReverseInvolution(Xor(r', d), w);
    LowOfSmall(r, w);
    LowOfSmall(Xor(r', d), w);
  }

  // ----- gaps that commute with stepping -----

  /** XOR with k is adding k. */
  predicate Shifts(k: nat, w: nat) { k == 0 || 2 * k == Pow2(w) }

  /** XOR with k is subtracting from k. */
  predicate Mirrors(k: nat, w: nat) { k == Pow2(w) - 1 || 2 * k + 2 == Pow2(w) }

  lemma XorTop(v: nat, n: nat)
    requires v < Pow2(n + 1)
    ensures Xor(v, Pow2(n)) == if v < Pow2(n) then v + Pow2(n) else v - Pow2(n)
    ensures Xor(v, Pow2(n) - 1) == if v < Pow2(n) then Pow2(n) - 1 - v else 3 * Pow2(n) - 1 - v
  {
    hide Bitwise, Shl, Shr, Low;
    var h, l := if v < Pow2(n) then 0 else 1, if v < Pow2(n) then v else v - Pow2(n);
    ShlOne(n);
    ShlIsProduct(0, n);
    XorJoin(h, l, 1, 0, n);
    XorJoin(h, l, 0, Pow2(n) - 1, n);
    XorZero(l);
    XorZero(h);
    XorZero(1);
    XorSelf(1);
    XorComplement(l, n);
    XorComm(Pow2(n) - 1, l);
  }

  lemma XorShifts(v: nat, k: nat, w: nat)
    requires v < Pow2(w) && Shifts(k, w)
    ensures Xor(v, k) == Low(v + k, w)
  {
    hide Bitwise, Low, Shl;
    XorZero(v);
    if k == 0 {
      LowOfSmall(v, w);
    } else {
      assert w > 0 && k == Pow2(w - 1);
      XorTop(v, w - 1);
      WrapOnce(v + k, w);
    }
  }

  lemma WrapOnce(x: nat, w: nat)
    requires x < 2 * Pow2(w)
    ensures Low(x, w) == if x < Pow2(w) then x else x - Pow2(w)
  {
    hide Pow2, Low, Shl;
    if x < Pow2(w) {
      LowOfSmall(x, w);
    } else {
      ShlOne(w);
      LowAddMultiple(x - Pow2(w), 1, w);
      LowOfSmall(x - Pow2(w), w);
    }
  }

  lemma XorMirrors(v: nat, k: nat, w: nat)
    requires v < Pow2(w) && Mirrors(k, w)
    ensures Xor(v, k) == Low(k + Pow2(w) - v, w)
  {
    hide Bitwise, Low, Shl;
    WrapOnce(k + Pow2(w) - v, w);
    if k == Pow2(w) - 1 {
      XorComplement(v, w);
      XorComm(k, v);
    } else {
      assert w > 0 && k == Pow2(w - 1) - 1;
      XorTop(v, w - 1);
    }
  }

  // ----- which gaps do -----

  /** Walking by s from p and by t from q, the counters differ by the gap k at step i. */
  predicate ApartAt(p: nat, s: nat, q: nat, t: nat, k: nat, w: nat, i: nat) {
    Low(p + Times(i, s), w) == Xor(Low(q + Times(i, t), w), k)
  }

  /** Strides that keep counters k apart. */
  predicate Keeps(s: nat, t: nat, k: nat, w: nat) {
    (Low(s, w) == Low(t, w) && Shifts(k, w)) || (Low(s, w) + Low(t, w) == Pow2(w) && Mirrors(k, w))
  }

  lemma LowSums(x: nat, y: nat, z: nat, w: nat)
    requires Low(x, w) == Low(y, w)
    ensures Low(x + z, w) == Low(y + z, w)
  {
    hide Low;
    LowAddLeft(x, z, w);
    LowAddLeft(y, z, w);
  }

  lemma ShiftStep(v: nat, b: nat, k: nat, w: nat)
    requires Shifts(k, w) && v < Pow2(w) && Low(v + b, w) < Pow2(w)
    ensures Low(Xor(v, k) + b, w) == Xor(Low(v + b, w), k)
  {
    hide Low, Pow2, Bitwise, Shifts;
    XorShifts(v, k, w);
    XorShifts(Low(v + b, w), k, w);
    LowAddLeft(v + k, b, w);
    LowAddLeft(v + b, k, w);
    assert v + k + b == v + b + k;
  }

  lemma MirrorStep(v: nat, a: nat, b: nat, k: nat, w: nat)
    requires Mirrors(k, w) && v < Pow2(w) && a + b == Pow2(w) && Low(v + b, w) < Pow2(w)
    ensures Low(Xor(v, k) + a, w) == Xor(Low(v + b, w), k)
  {
    hide Low, Pow2, Bitwise, Mirrors;
    XorMirrors(v, k, w);
    XorMirrors(Low(v + b, w), k, w);
    MirrorSum(v, b, k, w);
    LowAddLeft(k + Pow2(w) - v, a, w);
  }

  lemma KeepsStep(x: nat, s: nat, y: nat, t: nat, k: nat, w: nat)
    requires Keeps(s, t, k, w) && k < Pow2(w) && Low(x, w) == Xor(Low(y, w), k)
    ensures Low(x + s, w) == Xor(Low(y + t, w), k)
  {
    hide Low, Pow2, Bitwise, Shifts, Mirrors;
    var a, b, v := Low(s, w), Low(t, w), Low(y, w);
    Split(y, w);
    Split(v + b, w);
    LowAdd(y, t, w);
    LowAdd(x, s, w);
    if a == b && Shifts(k, w) {
      ShiftStep(v, b, k, w);
    } else {
      MirrorStep(v, a, b, k, w);
    }
  }

  /** k - v + (2^w - b) and k - (v + b) agree modulo 2^w. */
  lemma MirrorSum(v: nat, b: nat, k: nat, w: nat)
    requires v < Pow2(w) && b <= Pow2(w)
    ensures Low(v + b, w) < Pow2(w)
    ensures Low(k + Pow2(w) - v + (Pow2(w) - b), w) == Low(k + Pow2(w) - Low(v + b, w), w)
  {
    hide Low, Pow2, Shl;
    Split(v + b, w);
    ShlOne(w);
    if v + b < 2 * Pow2(w) {
      WrapOnce(v + b, w);
    }
    var u := k + Pow2(w) - Low(v + b, w);
    LowAddMultiple(k + Pow2(w) - v + (Pow2(w) - b), 1, w);
    LowAddMultiple(u, 1, w);
  }

  lemma {:induction false} KeptApart(p: nat, s: nat, q: nat, t: nat, k: nat, w: nat, i: nat)
    requires Keeps(s, t, k, w) && k < Pow2(w) && Low(p, w) == Xor(Low(q, w), k)
    ensures ApartAt(p, s, q, t, k, w, i)
    decreases i
  {
    hide Low, Pow2, Bitwise, Keeps;
    if i > 0 {
      KeptApart(p, s, q, t, k, w, i - 1);
      KeepsStep(p + Times(i - 1, s), s, q + Times(i - 1, t), t, k, w);
    }
  }

  /** Step i0 + r * j, from step i0 in r strides of j steps. */
  lemma ManySteps(p: nat, s: nat, i0: nat, j: nat, r: nat, w: nat)
    ensures Low(p + Times(i0 + r * j, s), w)
         == Low(Low(p + Times(i0, s), w) + Times(r, Low(Times(j, s), w)), w)
  {
    hide Low, Times;
    var x := p + Times(i0, s);
    TimesSum(i0, r * j, s);
    assert Times(r * j, s) == Times(r, Times(j, s)) by {
      TimesIsProduct(r * j, s);
      TimesIsProduct(j, s);
      TimesIsProduct(r, Times(j, s));
      MulAssoc(r, j, s);
    }
    LowTimes(r, Times(j, s), w);
    LowAddLeft(Times(r, Times(j, s)), x, w);
    LowAddLeft(Times(r, Low(Times(j, s), w)), x, w);
    LowAddLeft(x, Times(r, Low(Times(j, s), w)), w);
  }

  /** XOR with the gap is affine: the counter r, met r strides of j steps after 0. */
  lemma Affine(p: nat, s: nat, q: nat, t: nat, k: nat, w: nat, i0: nat, j: nat, r: nat)
    requires forall i: nat :: ApartAt(p, s, q, t, k, w, i)
    requires Low(q + Times(i0, t), w) == 0 && Low(Times(j, t), w) == 1 && r < Pow2(w)
    ensures Xor(r, k) == Low(k + Times(r, Low(Times(j, s), w)), w)
  {
    hide Low, Times, Bitwise, Pow2;
    assert ApartAt(p, s, q, t, k, w, i0);
    assert ApartAt(p, s, q, t, k, w, i0 + r * j);
    XorZero(k);
    ManySteps(p, s, i0, j, r, w);
    ManySteps(q, t, i0, j, r, w);
    TimesIsProduct(r, 1);
    LowOfSmall(r, w);
  }

  lemma XorOne(k: nat)
    ensures Xor(1, k) == if k % 2 == 0 then k + 1 else k - 1
  {
    hide Bitwise;
    XorBelow(1, 0, k % 2, k / 2);
    XorZero(k / 2);
  }

  /** Three instances tell which gaps are possible. */
  lemma GapIsSpecial(k: nat, u: nat, w: nat)
    requires w > 0 && k < Pow2(w) && u < Pow2(w)
    requires Xor(1, k) == Low(k + Times(1, u), w)
    requires Xor(k, k) == Low(k + Times(k, u), w)
    requires Xor(Pow2(w) - 1 - k, k) == Low(k + Times(Pow2(w) - 1 - k, u), w)
    ensures Shifts(k, w) || Mirrors(k, w)
  {
    hide Low, Times, Bitwise, Pow2;
    XorOne(k);
    TimesIsProduct(1, u);
    WrapOnce(k + u, w);
    Even(w);
    if k % 2 == 0 {
      assert u == 1;
      TimesIsProduct(k, 1);
      XorSelf(k);
      WrapOnce(k + k, w);
    } else {
      assert u == Pow2(w) - 1;
      var r := Pow2(w) - 1 - k;
      XorComplement(k, w);
      XorCancel(Pow2(w) - 1, k);
      Falling(k, r, w);
      WrapOnce(k + Pow2(w) - r, w);
    }
  }

  lemma Even(w: nat)
    requires w > 0
    ensures Pow2(w) % 2 == 0
  {
  }

  /** r times 2^w - 1 is minus r modulo 2^w. */
  lemma Falling(k: nat, r: nat, w: nat)
    requires r <= Pow2(w)
    ensures Low(k + Times(r, Pow2(w) - 1), w) == Low(k + Pow2(w) - r, w)
  {
    hide Low, Times, Pow2, Shl;
    var t := Pow2(w);
    TimesIsProduct(r, t - 1);
    ShlIsProduct(r, w);
    ShlOne(w);
    LowAddMultiple(k + Times(r, t - 1), 1, w);
    LowAddMultiple(k + t - r, r, w);
    FallingProduct(k, r, t);
  }

  lemma FallingProduct(k: nat, r: nat, t: nat)
    requires r <= t && t > 0
    ensures k + r * (t - 1) + t == k + t - r + r * t
  {
  }

  /** From k to k + s while the other walk goes from 0 to t. */
  lemma StridesMatch(s: nat, t: nat, k: nat, w: nat)
    requires w > 0 && t % 2 == 1 && k < Pow2(w) && Low(k + s, w) == Xor(Low(t, w), k)
    requires Shifts(k, w) || Mirrors(k, w)
    ensures Keeps(s, t, k, w)
  {
    hide Low, Bitwise, Pow2, Shifts, Mirrors;
    var a, b := Low(s, w), Low(t, w);
    Split(s, w);
    Split(t, w);
    LowStep(t, w);
    LowAddLeft(s, k, w);
    WrapOnce(k + a, w);
    if Shifts(k, w) {
      XorShifts(b, k, w);
      WrapOnce(b + k, w);
    } else {
      XorMirrors(b, k, w);
      WrapOnce(k + Pow2(w) - b, w);
    }
  }

  lemma ApartOnlyIf(p: nat, s: nat, q: nat, t: nat, k: nat, w: nat)
    requires w > 0 && t % 2 == 1 && k < Pow2(w)
    requires forall i: nat :: ApartAt(p, s, q, t, k, w, i)
    ensures Keeps(s, t, k, w)
  {
    hide Low, Times, Bitwise, Pow2, Shifts, Mirrors, Keeps;
    var i0 := StepsReach(t, q, 0, w);
    var j := StepsReach(t, 0, 1, w);
    Pow2Monotone(0, w);
    PowZero();
    LowOfSmall(0, w);
    LowOfSmall(1, w);
    var u := Low(Times(j, s), w);
    Split(Times(j, s), w);
    Affine(p, s, q, t, k, w, i0, j, 1);
    Affine(p, s, q, t, k, w, i0, j, k);
    Affine(p, s, q, t, k, w, i0, j, Pow2(w) - 1 - k);
    GapIsSpecial(k, u, w);
    assert ApartAt(p, s, q, t, k, w, i0);
    assert ApartAt(p, s, q, t, k, w, i0 + 1);
    XorZero(k);
    NextStep(p, s, i0, w);
    NextStep(q, t, i0, w);
    LowOfSmall(k, w);
    LowSums(p + Times(i0, s), k, s, w);
    LowSums(q + Times(i0, t), 0, t, w);
    StridesMatch(s, t, k, w);
  }

  lemma NextStep(p: nat, s: nat, i: nat, w: nat)
    ensures p + Times(i + 1, s) == p + Times(i, s) + s
  {
  }

  // ----- the condition on the masks -----

  lemma ReverseOfUnit(w: nat)
    requires w > 0
    ensures Reverse(0, w) == 0 && Reverse(1, w) == Pow2(w - 1)
  {
    hide Bit, Pow2;
    ReverseOfZero(w);
    ReverseOfZero(w - 1);
    ReverseTop(1, w);
  }

  /** Gaps 0 and half, and their complements, are those of masks that agree, or disagree,
      on all bits but perhaps the lowest. */
  lemma SpecialMasks(c: Cycle, c': Cycle)
    requires c.Valid() && c'.Valid() && c.Width() > 0
    ensures Shifts(Gap(c, c'), c.Width()) <==> MaskGap(c, c') <= 1
    ensures Mirrors(Gap(c, c'), c.Width()) <==> MaskGap(c, c') + 2 >= Pow2(c.Width())
  {
    hide Low, Bitwise, Reverse, MaskGap;
    var w, d, k := c.Width(), MaskGap(c, c'), Gap(c, c');
    GapBound(c, c');
    ReverseOfUnit(w);
    ReverseInvolution(1, w);
    Pow2Monotone(1, w);
    assert Pow2(w) == 2 * Pow2(w - 1);
    LowOfSmall(1, w);
    ReverseComplement(0, w);
    ReverseComplement(1, w);
    ReverseComplement(Pow2(w - 1), w);
  }

  // ----- the theorem -----

  /** The two streams stand on the same addresses, step by step. */
  ghost predicate SameWalk(s: CycleState, s': CycleState)
    requires s.Valid() && s'.Valid()
  {
    forall i: nat :: SameAt(s, s', i)
  }

  predicate SameAt(s: CycleState, s': CycleState, i: nat)
    requires s.Valid() && s'.Valid()
  {
    AddrAt(s.cycle, PosAfter(s.cycle, s.pos, i)) == AddrAt(s'.cycle, PosAfter(s'.cycle, s'.pos, i))
  }

  /** Over one prefix, an address is its host. */
  lemma AddrsMeetIff(c: Cycle, c': Cycle, p: nat, q: nat)
    requires c.Valid() && c'.Valid() && c.bits == c'.bits && c.prefix == c'.prefix
    ensures AddrAt(c, p) == AddrAt(c', q) <==> Host(c, p) == Host(c', q)
  {
    hide Host, Low, Shl, Pow2;
    AddrAtParts(c, p);
    AddrAtParts(c', q);
  }

  lemma SameAtIff(s: CycleState, s': CycleState, i: nat)
    requires s.Valid() && s'.Valid() && s.cycle.bits == s'.cycle.bits && s.cycle.prefix == s'.cycle.prefix
    ensures SameAt(s, s', i)
       <==> ApartAt(s.pos, s.cycle.stride, s'.pos, s'.cycle.stride, Gap(s.cycle, s'.cycle), s.cycle.Width(), i)
  {
    hide AddrAt, Host, Low, Bitwise, Gap, Times;
    var c, c', w := s.cycle, s'.cycle, s.cycle.Width();
    AddrsMeetIff(c, c', PosAfter(c, s.pos, i), PosAfter(c', s'.pos, i));
    HostsMeetIff(c, c', PosAfter(c, s.pos, i), PosAfter(c', s'.pos, i));
    LowOfPosAfter(c, s.pos, i, w);
    LowOfPosAfter(c', s'.pos, i, w);
  }

  /** What two streams must share to visit the same addresses in the same order. */
  predicate Alike(s: CycleState, s': CycleState)
    requires s.Valid() && s'.Valid()
  {
    var w := s.cycle.Width();
    var a, b, d := Low(s.cycle.stride, w), Low(s'.cycle.stride, w), MaskGap(s.cycle, s'.cycle);
    Host(s.cycle, s.pos) == Host(s'.cycle, s'.pos)
    && ((a == b && d <= 1) || (a + b == Pow2(w) && d + 2 >= Pow2(w)))
  }

  /** Two streams over one prefix walk the same sequence exactly when they start at the
      same host and either stride alike under masks that differ in the lowest bit at most,
      or stride oppositely under masks that agree in the lowest bit at most. */
  lemma SameWalkIff(s: CycleState, s': CycleState)
    requires s.Valid() && s'.Valid() && s.cycle.bits == s'.cycle.bits && s.cycle.prefix == s'.cycle.prefix
    ensures SameWalk(s, s') <==> Alike(s, s')
  {
    hide AddrAt, Host, Low, Bitwise, Gap, MaskGap, Pow2, Keeps, ApartAt, SameAt;
    var c, c', w := s.cycle, s'.cycle, s.cycle.Width();
    if w == 0 {
      NoWidth(s, s');
    } else {
      var k := Gap(c, c');
      GapBound(c, c');
      KeepsIs(s, s');
      SameAtStart(s, s');
      forall i: nat
        ensures SameAt(s, s', i) <==> ApartAt(s.pos, c.stride, s'.pos, c'.stride, k, w, i)
      {
        SameAtIff(s, s', i);
      }
      if SameWalk(s, s') {
        assert SameAt(s, s', 0);
        ApartOnlyIf(s.pos, c.stride, s'.pos, c'.stride, k, w);
      }
      if Alike(s, s') {
        HostsMeetIff(c, c', s.pos, s'.pos);
        forall i: nat
          ensures SameAt(s, s', i)
        {
          KeptApart(s.pos, c.stride, s'.pos, c'.stride, k, w, i);
        }
      }
    }
  }

  lemma KeepsIs(s: CycleState, s': CycleState)
    requires s.Valid() && s'.Valid() && s.cycle.bits == s'.cycle.bits && s.cycle.Width() > 0
    ensures Alike(s, s')
       <==> Host(s.cycle, s.pos) == Host(s'.cycle, s'.pos)
            && Keeps(s.cycle.stride, s'.cycle.stride, Gap(s.cycle, s'.cycle), s.cycle.Width())
  {
    hide Host, Low, Gap, MaskGap, Pow2, Shifts, Mirrors;
    SpecialMasks(s.cycle, s'.cycle);
  }

  lemma SameAtStart(s: CycleState, s': CycleState)
    requires s.Valid() && s'.Valid() && s.cycle.bits == s'.cycle.bits && s.cycle.prefix == s'.cycle.prefix
    ensures SameAt(s, s', 0) <==> Host(s.cycle, s.pos) == Host(s'.cycle, s'.pos)
  {
    hide AddrAt, Host, PosAfter;
    PosAfterZero(s.cycle, s.pos);
    PosAfterZero(s'.cycle, s'.pos);
    AddrsMeetIff(s.cycle, s'.cycle, s.pos, s'.pos);
  }

  lemma NoWidth(s: CycleState, s': CycleState)
    requires s.Valid() && s'.Valid() && s.cycle.bits == s'.cycle.bits && s.cycle.prefix == s'.cycle.prefix
    requires s.cycle.Width() == 0
    ensures SameWalk(s, s') && Alike(s, s')
  {
    hide AddrAt, PosAfter;
    HostBound(s.cycle, s.pos);
    HostBound(s'.cycle, s'.pos);
    XorZero(0);
    forall i: nat
      ensures SameAt(s, s', i)
    {
      HostBound(s.cycle, PosAfter(s.cycle, s.pos, i));
      HostBound(s'.cycle, PosAfter(s'.cycle, s'.pos, i));
      AddrsMeetIff(s.cycle, s'.cycle, PosAfter(s.cycle, s.pos, i), PosAfter(s'.cycle, s'.pos, i));
    }
  }

  // ----- and what is handed out -----

  /** The same hosts ahead are skipped alike. */
  lemma {:induction false} SameSkips(c: Cycle, c': Cycle, p: nat, q: nat, budget: nat)
    requires c.Valid() && c'.Valid() && c.bits == c'.bits && p < W128 && q < W128
    requires forall i: nat :: Host(c, PosAfter(c, p, i)) == Host(c', PosAfter(c', q, i))
    ensures Skips(c, p, budget) == Skips(c', q, budget)
    decreases budget
  {
    hide Host, PosAfter;
    PosAfterZero(c, p);
    PosAfterZero(c', q);
    assert Host(c, PosAfter(c, p, 0)) == Host(c', PosAfter(c', q, 0));
    if budget > 0 {
      var p1, q1 := PosAfter(c, p, 1), PosAfter(c', q, 1);
      PosAfterBound(c, p, 1);
      PosAfterBound(c', q, 1);
      forall i: nat
        ensures Host(c, PosAfter(c, p1, i)) == Host(c', PosAfter(c', q1, i))
      {
        PosAfterSum(c, p, 1, i);
        PosAfterSum(c', q, 1, i);
        assert Host(c, PosAfter(c, p, 1 + i)) == Host(c', PosAfter(c', q, 1 + i));
      }
      SameSkips(c, c', p1, q1, budget - 1);
    }
  }

  /** The hosts after the first n draws, as the walk passes them. */
  lemma HostAhead(s: CycleState, s': CycleState, k: nat, n: nat, i: nat)
    requires s.Valid() && s'.Valid() && s.cycle.bits == s'.cycle.bits && s.cycle.prefix == s'.cycle.prefix
    requires SameWalk(s, s')
    ensures Offset(s, n) == k && Offset(s', n) == k ==>
              Host(s.cycle, PosAfter(s.cycle, AfterDraws(s, n).pos, i))
              == Host(s'.cycle, PosAfter(s'.cycle, AfterDraws(s', n).pos, i))
  {
    hide AddrAt, Host, PosAfter, Offset, AfterDraws;
    AfterDrawsMeaning(s, n);
    AfterDrawsMeaning(s', n);
    PosAfterSum(s.cycle, s.pos, k, i);
    PosAfterSum(s'.cycle, s'.pos, k, i);
    assert SameAt(s, s', k + i);
    AddrsMeetIff(s.cycle, s'.cycle, PosAfter(s.cycle, s.pos, k + i), PosAfter(s'.cycle, s'.pos, k + i));
  }

  lemma {:induction false} SameOffsets(s: CycleState, s': CycleState, n: nat)
    requires s.Valid() && s'.Valid() && s.cycle.bits == s'.cycle.bits && s.cycle.prefix == s'.cycle.prefix
    requires SameWalk(s, s')
    ensures Offset(s, n) == Offset(s', n)
  {
    hide AddrAt, Host, PosAfter, SameWalk;
    if n > 0 {
      SameOffsets(s, s', n - 1);
      var p, q := AfterDraws(s, n - 1).pos, AfterDraws(s', n - 1).pos;
      forall i: nat
        ensures Host(s.cycle, PosAfter(s.cycle, p, i)) == Host(s'.cycle, PosAfter(s'.cycle, q, i))
      {
        HostAhead(s, s', Offset(s, n - 1), n - 1, i);
      }
      SameSkips(s.cycle, s'.cycle, p, q, MAX_CYCLE_SKIPS);
    }
  }

  /** Streams that walk alike hand out the same addresses, draw by draw. */
  lemma SameDraws(s: CycleState, s': CycleState, n: nat)
    requires s.Valid() && s'.Valid() && s.cycle.bits == s'.cycle.bits && s.cycle.prefix == s'.cycle.prefix
    requires Alike(s, s')
    ensures NthDraw(s, n) == NthDraw(s', n)
  {
    hide AddrAt, Host, PosAfter, Offset, NthDraw, Alike;
    SameWalkIff(s, s');
    SameOffsets(s, s', n + 1);
    NthDrawMeaning(s, n);
    NthDrawMeaning(s', n);
    assert SameAt(s, s', Offset(s, n + 1) - 1);
  }
}

/** The rotation cycle as arithmetic: counter positions advance by an odd stride
    modulo 2^128, and a position's address carries the bit-reversed counter, XORed
    with a mask, in the host bits of the prefix. */
module Cycles {
  import opened Words
  import opened Addresses
  import opened OddStride

  datatype Cycle = Cycle(prefix: Addr, bits: nat, stride: nat, mask: nat) {
    predicate Valid() {
      bits <= 128 && stride % 2 == 1 && stride < W128 && mask < W128
    }

    function Width(): nat
      requires Valid()
    {
      128 - bits
    }
  }

  /** The host number at a counter position. */
  function Host(c: Cycle, pos: nat): nat
    requires c.Valid()
  {
    Xor(Reverse(pos, c.Width()), Low(c.mask, c.Width()))
  }

  function AddrAt(c: Cycle, pos: nat): Addr
    requires c.Valid()
  {
    FromNum(Shl(Group(c.prefix, c.bits), c.Width()) + Host(c, pos))
  }

  /** The counter after n strides from p, on the 128-bit ring. */
  function PosAfter(c: Cycle, p: nat, n: nat): nat { Low(p + Times(n, c.stride), 128) }

  lemma PosAfterZero(c: Cycle, p: nat)
    requires p < W128
    ensures PosAfter(c, p, 0) == p
  {
    hide Pow2, Low;
    Pow2Values();
    LowOfSmall(p, 128);
  }

  lemma PosAfterSum(c: Cycle, p: nat, m: nat, n: nat)
    ensures PosAfter(c, PosAfter(c, p, m), n) == PosAfter(c, p, m + n)
  {
    LowAddLeft(p + Times(m, c.stride), Times(n, c.stride), 128);
    TimesSum(m, n, c.stride);
  }

  lemma PosAfterBound(c: Cycle, p: nat, n: nat)
    ensures PosAfter(c, p, n) < W128
  {
    hide Pow2, Low;
    Pow2Values();
    Split(p + Times(n, c.stride), 128);
  }

  lemma LowOfPosAfter(c: Cycle, p: nat, n: nat, k: nat)
    requires k <= 128
    ensures Low(PosAfter(c, p, n), k) == Low(p + Times(n, c.stride), k)
  {
    LowLow(p + Times(n, c.stride), k, 128);
  }

  // ----- what an address carries -----

  lemma HostBound(c: Cycle, pos: nat)
    requires c.Valid()
    ensures Host(c, pos) < Pow2(c.Width())
  {
    ReverseBit(pos, c.Width(), 0);
    Split(c.mask, c.Width());
    BitwiseBound(XOR, Reverse(pos, c.Width()), Low(c.mask, c.Width()), c.Width());
  }

  /** The address is the prefix's leading bits followed by the host number. */
  lemma AddrAtParts(c: Cycle, pos: nat)
    requires c.Valid()
    ensures Num(AddrAt(c, pos)) == Shl(Group(c.prefix, c.bits), c.Width()) + Host(c, pos)
    ensures Low(Num(AddrAt(c, pos)), c.Width()) == Host(c, pos)
    ensures InPrefix(AddrAt(c, pos), c.prefix, c.bits)
  {
    hide Pow2, Low;
    var g, h := Group(c.prefix, c.bits), Host(c, pos);
    GroupBound(c.prefix, c.bits);
    HostBound(c, pos);
    JoinBound(g, c.bits, h, c.Width());
    Pow2Values();
    NumFromNum(Shl(g, c.Width()) + h);
    SplitUnique(g, h, c.Width());
  }

  /** A field of the host number, in terms of the mirrored field of the counter. */
  lemma HostField(c: Cycle, pos: nat, lo: nat, n: nat)
    requires c.Valid() && lo + n <= c.Width()
    ensures Field(Host(c, pos), lo, n)
         == Xor(Reverse(Field(pos, c.Width() - lo - n, n), n), Field(c.mask, lo, n))
  {
    var w := c.Width();
    XorField(Reverse(pos, w), Low(c.mask, w), lo, n);
    ReverseField(pos, w, lo, n);
    ShrLow(c.mask, lo, w);
    LowLow(Shr(c.mask, lo), n, w - lo);
  }

  /** The counter field that puts v into host bits lo .. lo+n-1. */
  function CounterField(c: Cycle, lo: nat, n: nat, v: nat): nat {
    Reverse(Xor(v, Field(c.mask, lo, n)), n)
  }

  lemma HostFieldIff(c: Cycle, pos: nat, lo: nat, n: nat, v: nat)
    requires c.Valid() && lo + n <= c.Width() && v < Pow2(n)
    ensures Field(Host(c, pos), lo, n) == v
       <==> Field(pos, c.Width() - lo - n, n) == CounterField(c, lo, n, v)
  {
    var f := Field(pos, c.Width() - lo - n, n);
    var m := Field(c.mask, lo, n);
    HostField(c, pos, lo, n);
    Split(Shr(pos, c.Width() - lo - n), n);
    Split(Shr(c.mask, lo), n);
    ReverseXorIff(f, m, v, n);
  }

  lemma ReverseXorIff(f: nat, m: nat, v: nat, n: nat)
    requires f < Pow2(n) && m < Pow2(n) && v < Pow2(n)
    ensures Xor(Reverse(f, n), m) == v <==> f == Reverse(Xor(v, m), n)
  {
    XorCancel(Reverse(f, n), m);
    XorCancel(v, m);
    BitwiseBound(XOR, v, m, n);
    ReverseInvolution(f, n);
    LowOfSmall(f, n);
    ReverseInvolution(Xor(v, m), n);
    LowOfSmall(Xor(v, m), n);
  }

  lemma TopFieldIff(c: Cycle, pos: nat, k: nat, v: nat)
    requires c.Valid() && k <= c.Width() && v < Pow2(k)
    ensures Field(Host(c, pos), c.Width() - k, k) == v
       <==> Low(pos, k) == CounterField(c, c.Width() - k, k, v)
  {
    HostFieldIff(c, pos, c.Width() - k, k, v);
    assert Shr(pos, 0) == pos;
  }

  lemma {:induction false} ShrJoined(g: nat, h: nat, k: nat, m: nat)
    ensures Shr(Shl(g, k + m) + h, m) == Shl(g, k) + Shr(h, m)
    decreases m
  {
    if m > 0 {
      ShrJoined(g, h / 2, k, m - 1);
    }
  }

  /** The /(bits+k) group of a position: the prefix, then the top k host bits. */
  lemma GroupParts(c: Cycle, pos: nat, k: nat)
    requires c.Valid() && k <= c.Width()
    ensures Group(AddrAt(c, pos), c.bits + k)
         == Shl(Group(c.prefix, c.bits), k) + Field(Host(c, pos), c.Width() - k, k)
    ensures Field(Host(c, pos), c.Width() - k, k) < Pow2(k)
  {
    hide Pow2, Low, Shl;
    var w, g, h := c.Width(), Group(c.prefix, c.bits), Host(c, pos);
    AddrAtParts(c, pos);
    HostBound(c, pos);
    LowOfSmall(h, w);
    ShrLow(h, w - k, w);
    Split(Shr(h, w - k), k);
    ShrJoined(g, h, k, w - k);
  }

  lemma GroupFieldIff(c: Cycle, pos: nat, k: nat, g: nat)
    requires c.Valid() && k <= c.Width()
    requires Shr(g, k) == Group(c.prefix, c.bits)
    ensures Low(g, k) < Pow2(k)
    ensures Group(AddrAt(c, pos), c.bits + k) == g
       <==> Field(Host(c, pos), c.Width() - k, k) == Low(g, k)
  {
    GroupParts(c, pos, k);
    Split(g, k);
  }

  /** Which counters land in group g: those whose low k bits take one value. */
  lemma GroupIff(c: Cycle, pos: nat, k: nat, g: nat)
    requires c.Valid() && k <= c.Width()
    requires Shr(g, k) == Group(c.prefix, c.bits)
    ensures Group(AddrAt(c, pos), c.bits + k) == g
       <==> Low(pos, k) == CounterField(c, c.Width() - k, k, Low(g, k))
  {
    GroupFieldIff(c, pos, k, g);
    TopFieldIff(c, pos, k, Low(g, k));
  }

  /** Two positions share a /(bits+k) group exactly when their counters agree on k bits. */
  lemma SameGroupIff(c: Cycle, p: nat, q: nat, k: nat)
    requires c.Valid() && k <= c.Width()
    ensures Group(AddrAt(c, p), c.bits + k) == Group(AddrAt(c, q), c.bits + k)
       <==> Low(p, k) == Low(q, k)
  {
    hide Low, Shl, Shr, Bitwise, Reverse;
    GroupParts(c, p, k);
    var g := Group(AddrAt(c, p), c.bits + k);
    SplitUnique(Group(c.prefix, c.bits), Field(Host(c, p), c.Width() - k, k), k);
    GroupIff(c, p, k, g);
    GroupIff(c, q, k, g);
  }

  /** `at` is injective on counters modulo 2^width, and on nothing more. */
  lemma AddrAtInjective(c: Cycle, p: nat, q: nat)
    requires c.Valid()
    ensures AddrAt(c, p) == AddrAt(c, q) <==> Low(p, c.Width()) == Low(q, c.Width())
  {
    SameGroupIff(c, p, q, c.Width());
    FromNumNum(AddrAt(c, p));
    FromNumNum(AddrAt(c, q));
    assert Group(AddrAt(c, p), 128) == Num(AddrAt(c, p));
    assert Group(AddrAt(c, q), 128) == Num(AddrAt(c, q));
  }

  // ----- exact breadth-first coverage -----

  /** Step i of the cycle from p lands in group g of length bits + k. */
  predicate Visits(c: Cycle, p: nat, k: nat, g: nat, i: nat)
    requires c.Valid() && k <= c.Width()
  {
    Group(AddrAt(c, PosAfter(c, p, i)), c.bits + k) == g
  }

  /** Two steps share a /(bits+k) group exactly when they are a multiple of 2^k apart. */
  lemma StepsShareGroupIff(c: Cycle, p: nat, k: nat, i: nat, j: nat)
    requires c.Valid() && k <= c.Width() && i <= j
    ensures Group(AddrAt(c, PosAfter(c, p, i)), c.bits + k) == Group(AddrAt(c, PosAfter(c, p, j)), c.bits + k)
       <==> Low(j - i, k) == 0
  {
    hide Low, Times;
    SameGroupIff(c, PosAfter(c, p, i), PosAfter(c, p, j), k);
    LowOfPosAfter(c, p, i, k);
    LowOfPosAfter(c, p, j, k);
    StepsMeetIff(c.stride, p, i, j, k);
  }

  /** Steps fewer than 2^k apart lie in different /(bits+k) groups. */
  lemma NearStepsDiffer(c: Cycle, p: nat, k: nat, i: nat, j: nat)
    requires c.Valid() && k <= c.Width()
    requires i < j < i + Pow2(k)
    ensures Group(AddrAt(c, PosAfter(c, p, i)), c.bits + k)
         != Group(AddrAt(c, PosAfter(c, p, j)), c.bits + k)
  {
    StepsShareGroupIff(c, p, k, i, j);
    if Low(j - i, k) == 0 {
      LowZeroIsLarge(j - i, k);
    }
  }

  /** Two steps give the same address exactly when they are a multiple of 2^width apart. */
  lemma StepsShareAddressIff(c: Cycle, p: nat, i: nat, j: nat)
    requires c.Valid() && i <= j
    ensures AddrAt(c, PosAfter(c, p, i)) == AddrAt(c, PosAfter(c, p, j)) <==> Low(j - i, c.Width()) == 0
  {
    hide Low, Times;
    AddrAtInjective(c, PosAfter(c, p, i), PosAfter(c, p, j));
    LowOfPosAfter(c, p, i, c.Width());
    LowOfPosAfter(c, p, j, c.Width());
    StepsMeetIff(c.stride, p, i, j, c.Width());
  }

  /** Steps fewer than 2^width apart give different addresses. */
  lemma NearAddressesDiffer(c: Cycle, p: nat, i: nat, j: nat)
    requires c.Valid()
    requires i < j < i + Pow2(c.Width())
    ensures AddrAt(c, PosAfter(c, p, i)) != AddrAt(c, PosAfter(c, p, j))
  {
    NearStepsDiffer(c, p, c.Width(), i, j);
  }

  /** Any 2^k consecutive positions visit every /(bits+k) group of the prefix
      exactly once. */
  lemma ExactCoverage(c: Cycle, p: nat, k: nat, g: nat)
    requires c.Valid() && k <= c.Width()
    requires Shr(g, k) == Group(c.prefix, c.bits)
    ensures exists i :: 0 <= i < Pow2(k) && Visits(c, p, k, g, i)
    ensures forall i, j | 0 <= i < Pow2(k) && 0 <= j < Pow2(k) ::
              Visits(c, p, k, g, i) && Visits(c, p, k, g, j) ==> i == j
  {
    var t := CounterField(c, c.Width() - k, k, Low(g, k));
    ReverseBit(Xor(Low(g, k), Field(c.mask, c.Width() - k, k)), k, 0);
    LowOfSmall(t, k);
    var i := StepsReach(c.stride, p, t, k);
    LowOfPosAfter(c, p, i, k);
    GroupIff(c, PosAfter(c, p, i), k, g);
    assert Visits(c, p, k, g, i);
    forall i: nat, j: nat | i < j < Pow2(k) && Visits(c, p, k, g, i)
      ensures !Visits(c, p, k, g, j)
    {
      NearStepsDiffer(c, p, k, i, j);
    }
  }

  /** ... and they visit nothing outside the prefix. */
  lemma VisitsStayInside(c: Cycle, p: nat, k: nat, i: nat)
    requires c.Valid() && k <= c.Width()
    ensures Shr(Group(AddrAt(c, PosAfter(c, p, i)), c.bits + k), k) == Group(c.prefix, c.bits)
  {
    var pos := PosAfter(c, p, i);
    GroupParts(c, pos, k);
    SplitUnique(Group(c.prefix, c.bits), Field(Host(c, pos), c.Width() - k, k), k);
  }

  /** 2^k steps keep the low k counter bits and flip bit k. */
  lemma PowerOfTwoSteps(c: Cycle, p: nat, n: nat, k: nat)
    requires c.Valid() && k < 128
    ensures Low(PosAfter(c, p, n), k) == Low(PosAfter(c, p, n + Pow2(k)), k)
    ensures Bit(PosAfter(c, p, n), k) != Bit(PosAfter(c, p, n + Pow2(k)), k)
  {
    hide Pow2, Low, Shl, Times;
    var x, y := p + Times(n, c.stride), p + Times(n + Pow2(k), c.stride);
    assert y == x + Shl(c.stride, k) by {
      TimesSum(n, Pow2(k), c.stride);
      TimesPow2(k, c.stride);
    }
    assert Low(x, k) == Low(y, k) && Bit(x, k) != Bit(y, k) by {
      OddMultipleFlips(x, c.stride, k);
    }
    LowLow(x, k, 128);
    LowLow(y, k, 128);
    BitLow(x, 128, k);
    BitLow(y, 128, k);
  }

  /** A wrap at level k re-enters the same /(bits+k) group in its other half. */
  lemma OppositeHalf(c: Cycle, p: nat, n: nat, k: nat)
    requires c.Valid() && k < c.Width()
    ensures Group(AddrAt(c, PosAfter(c, p, n)), c.bits + k)
         == Group(AddrAt(c, PosAfter(c, p, n + Pow2(k))), c.bits + k)
    ensures AddrBit(AddrAt(c, PosAfter(c, p, n)), c.bits + k)
         != AddrBit(AddrAt(c, PosAfter(c, p, n + Pow2(k))), c.bits + k)
  {
    hide Pow2, Low, Times, Bit, Bitwise, BE;
    var a, b := PosAfter(c, p, n), PosAfter(c, p, n + Pow2(k));
    PowerOfTwoSteps(c, p, n, k);
    SameGroupIff(c, a, b, k);
    AddrBitAt(c, a, c.bits + k);
    AddrBitAt(c, b, c.bits + k);
  }

  /** Every address bit: the prefix's, or counter bit XOR mask bit. */
  lemma AddrBitAt(c: Cycle, pos: nat, j: nat)
    requires c.Valid() && j < 128
    ensures AddrBit(AddrAt(c, pos), j)
         == if j < c.bits then AddrBit(c.prefix, j)
            else Bit(pos, j - c.bits) != Bit(c.mask, 127 - j)
  {
    hide Pow2, Low, Reverse;
    var w := c.Width();
    AddrAtParts(c, pos);
    if j < c.bits {
      InPrefixBits(AddrAt(c, pos), c.prefix, c.bits);
    } else {
      BEBit(AddrAt(c, pos), j);
      BitLow(Num(AddrAt(c, pos)), w, 127 - j);
      BitwiseBit(XOR, Reverse(pos, w), Low(c.mask, w), 127 - j);
      ReverseBit(pos, w, 127 - j);
      BitLow(c.mask, w, 127 - j);
    }
  }
}

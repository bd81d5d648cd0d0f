/** Which addresses a cycle skips, as the source computes it and as arithmetic on
    the host number. */
module Hygiene {
  import opened Words
  import opened Addresses
  import opened Cycles

  const MAX_CYCLE_SKIPS: nat := 8
  const MARKER: nat := 0xfffe

  predicate IsEUI64(iid: Word) { And(Shr(iid, 24), 0xffff) == MARKER }

  /** The host number of an address as a (hi, lo) pair of words. */
  function HostValue(width: nat, b: Addr): (Word, Word)
    requires width <= 128
  {
    var lo := LoWord(b);
    if width <= 64 then
      (0, if width < 64 then And64(lo, Sub64(Shl64(1, width), 1)) else lo)
    else
      var hi := HiWord(b);
      (if width < 128 then And64(hi, Sub64(Shl64(1, width - 64), 1)) else hi, lo)
  }

  predicate IsAllOnes(width: nat, hi: Word, lo: Word)
    requires width <= 128
  {
    if lo != Not64(0) then false
    else if width <= 64 then true
    else if width >= 128 then hi == Not64(0)
    else hi == Sub64(Shl64(1, width - 64), 1)
  }

  predicate NeedsHygiene(width: nat, b: Addr)
    requires width <= 128
  {
    var (hi, lo) := HostValue(width, b);
    (width > 2 && ((hi == 0 && lo == 0) || (hi == 0 && lo == 1) || IsAllOnes(width, hi, lo)))
    || (width >= 40 && IsEUI64(LoWord(b)))
  }

  // ----- the same on host numbers -----

  predicate Reserved(width: nat, host: nat) {
    host == 0 || host == 1 || (width >= 64 && host == Pow2(width) - 1)
  }

  predicate HasMarker(host: nat) { Field(host, 24, 16) == MARKER }

  predicate Flagged(width: nat, host: nat) {
    (width > 2 && Reserved(width, host)) || (width >= 40 && HasMarker(host))
  }

  /** `(1 << n) - 1` is the mask of n ones. */
  lemma OnesMask(n: nat)
    requires n < 64
    ensures Sub64(Shl64(1, n), 1) == Pow2(n) - 1
  {
    hide Pow2, Low, Shl;
    Pow2Values();
    Pow2Monotone(n, 64);
    ShlOne(n);
    LowOfSmall(Pow2(n), 64);
  }

  lemma {:induction false} LowJoin(hi: nat, lo: nat, n: nat, m: nat)
    requires lo < Pow2(n)
    ensures Low(Shl(hi, n) + lo, n + m) == Shl(Low(hi, m), n) + lo
    decreases n
  {
    if n > 0 {
      assert (Shl(hi, n) + lo) / 2 == Shl(hi, n - 1) + lo / 2;
      LowJoin(hi, lo / 2, n - 1, m);
    }
  }

  lemma MaskedWord(x: Word, n: nat)
    requires n < 64
    ensures And64(x, Sub64(Shl64(1, n), 1)) == Low(x, n)
  {
    OnesMask(n);
    AndMask(x, n);
  }

  lemma NarrowHostValue(width: nat, b: Addr)
    requires width <= 64
    ensures HostValue(width, b) == (0, Low(Num(b), width))
  {
    NumWords(b);
    LowLow(Num(b), width, 64);
    if width < 64 {
      MaskedWord(LoWord(b), width);
    }
  }

  lemma WideHostValue(width: nat, b: Addr)
    requires 64 < width <= 128
    ensures HostValue(width, b) == (Low(HiWord(b), width - 64), LoWord(b))
  {
    hide Pow2, Bitwise;
    Pow2Values();
    if width < 128 {
      MaskedWord(HiWord(b), width - 64);
    } else {
      LowOfSmall(HiWord(b), 64);
    }
  }

  lemma WideLow(m: nat, b: Addr)
    ensures Low(Num(b), 64 + m) == Shl(Low(HiWord(b), m), 64) + LoWord(b)
  {
    hide Pow2, Low, Shl;
    Pow2Values();
    NumWords(b);
    LowJoin(HiWord(b), LoWord(b), 64, m);
  }

  /** The pair is the low `width` bits of the address. */
  lemma HostValueMeaning(width: nat, b: Addr)
    requires width <= 128
    ensures var (hi, lo) := HostValue(width, b);
            hi * W64 + lo == Low(Num(b), width)
  {
    hide Low, Pow2;
    if width <= 64 {
      NarrowHostValue(width, b);
    } else {
      WideHostValue(width, b);
      WideLow(width - 64, b);
      WordShift(Low(HiWord(b), width - 64));
    }
  }

  lemma WordShift(x: nat)
    ensures Shl(x, 64) == x * W64
  {
    Pow2Values();
    ShlIsProduct(x, 64);
  }

  lemma AllOnesJoin(m: nat)
    ensures Pow2(64 + m) - 1 == (Pow2(m) - 1) * W64 + (W64 - 1)
  {
    ShlOfPow2(m, 64);
    WordShift(Pow2(m));
  }

  lemma NarrowAllOnes(width: nat, b: Addr)
    requires width <= 64
    ensures var (hi, lo) := HostValue(width, b);
            IsAllOnes(width, hi, lo) <==> width >= 64 && Low(Num(b), width) == Pow2(width) - 1
  {
    hide Pow2;
    NarrowHostValue(width, b);
    Split(Num(b), width);
    Pow2Values();
    Pow2Monotone(width, 64);
  }

  lemma WideAllOnes(width: nat, b: Addr)
    requires 64 < width <= 128
    ensures var (hi, lo) := HostValue(width, b);
            IsAllOnes(width, hi, lo) <==> Low(Num(b), width) == Pow2(width) - 1
  {
    hide Pow2, Low, Bitwise;
    HostValueMeaning(width, b);
    AllOnesJoin(width - 64);
    if width < 128 {
      OnesMask(width - 64);
    } else {
      Pow2Values();
    }
  }

  /** The source's all-ones test sees the all-ones host only from width 64 up. */
  lemma AllOnesMeaning(width: nat, b: Addr)
    requires width <= 128
    ensures var (hi, lo) := HostValue(width, b);
            IsAllOnes(width, hi, lo) <==> width >= 64 && Low(Num(b), width) == Pow2(width) - 1
  {
    if width <= 64 {
      NarrowAllOnes(width, b);
    } else {
      WideAllOnes(width, b);
    }
  }

  lemma MarkerMeaning(width: nat, b: Addr)
    requires 40 <= width <= 128
    ensures IsEUI64(LoWord(b)) <==> HasMarker(Low(Num(b), width))
  {
    var x := Num(b);
    assert And(Shr(LoWord(b), 24), 0xffff) == Field(LoWord(b), 24, 16) by {
      Pow2Values();
      AndMask(Shr(LoWord(b), 24), 16);
    }
    assert Low(x, 64) == LoWord(b) by { NumWords(b); }
    FieldOfLow(x, 24, 16, 64);
    FieldOfLow(x, 24, 16, width);
  }

  lemma FieldOfLow(x: nat, lo: nat, n: nat, m: nat)
    requires lo + n <= m
    ensures Field(Low(x, m), lo, n) == Field(x, lo, n)
  {
    ShrLow(x, lo, m);
    LowLow(Shr(x, lo), n, m - lo);
  }

  /** needsHygiene is a test of the host number alone. */
  lemma NeedsHygieneMeaning(width: nat, b: Addr)
    requires width <= 128
    ensures NeedsHygiene(width, b) <==> Flagged(width, Low(Num(b), width))
  {
    HostValueMeaning(width, b);
    AllOnesMeaning(width, b);
    if width >= 40 {
      MarkerMeaning(width, b);
    }
  }

  /** The same in plain numbers: hosts 0 and 1, from width 64 up all ones, and from width 40
      up 0xfffe in bits 24 to 39. */
  lemma NeedsHygieneIs(width: nat, b: Addr)
    requires width <= 128
    ensures var host := Num(b) % Pow2(width);
            NeedsHygiene(width, b)
            <==> || (width > 2 && (host == 0 || host == 1 || (width >= 64 && host == Pow2(width) - 1)))
                 || (width >= 40 && host / 0x100_0000 % 0x1_0000 == 0xfffe)
  {
    hide NeedsHygiene, Low, Shr, Pow2;
    NeedsHygieneMeaning(width, b);
    Pow2Values();
    ShrLowAreDivMod(Num(b), width);
    ShrLowAreDivMod(Num(b) % Pow2(width), 24);
    ShrLowAreDivMod(Num(b) % Pow2(width) / 0x100_0000, 16);
  }

  /** The host number the source reads back from a cycle's address is the reversed
      counter XOR the mask. */
  lemma HostValueOfAddrAt(c: Cycle, pos: nat)
    requires c.Valid()
    ensures var (hi, lo) := HostValue(c.Width(), AddrAt(c, pos));
            hi * W64 + lo == Xor(Reverse(pos, c.Width()), Low(c.mask, c.Width()))
  {
    HostValueMeaning(c.Width(), AddrAt(c, pos));
    AddrAtParts(c, pos);
  }

  // ----- skipping along a cycle -----

  predicate FlaggedAt(c: Cycle, pos: nat)
    requires c.Valid()
  {
    Flagged(c.Width(), Host(c, pos))
  }

  lemma FlaggedAtMeaning(c: Cycle, pos: nat)
    requires c.Valid()
    ensures NeedsHygiene(c.Width(), AddrAt(c, pos)) <==> FlaggedAt(c, pos)
  {
    AddrAtParts(c, pos);
    NeedsHygieneMeaning(c.Width(), AddrAt(c, pos));
  }

  /** Positions skipped from pos when at most `budget` may be. */
  function Skips(c: Cycle, pos: nat, budget: nat): nat
    requires c.Valid()
    decreases budget, pos
  {
    if budget == 0 || !FlaggedAt(c, pos) then 0
    else 1 + Skips(c, PosAfter(c, pos, 1), budget - 1)
  }

  /** The position whose address a draw from pos returns. */
  function DrawPos(c: Cycle, pos: nat): nat
    requires c.Valid()
  {
    PosAfter(c, pos, Skips(c, pos, MAX_CYCLE_SKIPS))
  }

  /** The skipped positions are flagged, and the stop is clean unless the budget ran out. */
  lemma {:induction false} SkipsMeaning(c: Cycle, pos: nat, budget: nat)
    requires c.Valid() && pos < W128
    ensures Skips(c, pos, budget) <= budget
    ensures forall i | 0 <= i < Skips(c, pos, budget) :: FlaggedAt(c, PosAfter(c, pos, i))
    ensures Skips(c, pos, budget) < budget ==> !FlaggedAt(c, PosAfter(c, pos, Skips(c, pos, budget)))
    decreases budget
  {
    PosAfterZero(c, pos);
    if budget > 0 && FlaggedAt(c, pos) {
      var next := PosAfter(c, pos, 1);
      PosAfterBound(c, pos, 1);
      SkipsMeaning(c, next, budget - 1);
      var s := Skips(c, next, budget - 1);
      forall i | 0 <= i <= s
        ensures PosAfter(c, pos, i + 1) == PosAfter(c, next, i)
      {
        PosAfterSum(c, pos, 1, i);
      }
      forall i | 0 <= i < s + 1
        ensures FlaggedAt(c, PosAfter(c, pos, i))
      {
        if i > 0 {
          assert FlaggedAt(c, PosAfter(c, next, i - 1));
        }
      }
    }
  }
}

/** When the bounded skip loop always ends on a clean address. */
module SkipBound {
  import opened Words
  import opened Addresses
  import opened Cycles
  import opened Hygiene

  /** A draw from pos returns an address that needs no hygiene. */
  predicate CleanDraw(c: Cycle, pos: nat)
    requires c.Valid()
  {
    !NeedsHygiene(c.Width(), AddrAt(c, DrawPos(c, pos)))
  }

  /** Step i from pos is flagged. */
  predicate FlaggedStep(c: Cycle, pos: nat, i: nat)
    requires c.Valid()
  {
    FlaggedAt(c, PosAfter(c, pos, i))
  }

  predicate FlaggedRun(c: Cycle, pos: nat, n: nat)
    requires c.Valid()
  {
    forall i | 0 <= i < n :: FlaggedStep(c, pos, i)
  }

  /** A draw is unclean exactly when nine positions in a row are flagged. */
  lemma UncleanIff(c: Cycle, pos: nat)
    requires c.Valid() && pos < W128
    ensures !CleanDraw(c, pos) <==> FlaggedRun(c, pos, 9)
  {
    var s := Skips(c, pos, 8);
    SkipsMeaning(c, pos, 8);
    FlaggedAtMeaning(c, DrawPos(c, pos));
    if FlaggedRun(c, pos, 9) {
      assert FlaggedStep(c, pos, s);
    } else {
      var i :| 0 <= i < 9 && !FlaggedStep(c, pos, i);
      assert i >= s;
      if s == 8 {
        assert i == 8;
      }
    }
  }

  /** Fewer than n flagged in a row means fewer than n skips. */
  lemma SkipsBelow(c: Cycle, pos: nat, n: nat)
    requires c.Valid() && pos < W128 && n <= 8
    requires !FlaggedRun(c, pos, n)
    ensures Skips(c, pos, 8) < n && CleanDraw(c, pos)
  {
    SkipsMeaning(c, pos, 8);
    FlaggedAtMeaning(c, DrawPos(c, pos));
    var i :| 0 <= i < n && !FlaggedStep(c, pos, i);
    assert i >= Skips(c, pos, 8);
  }

  // ----- reserved values are rare along a cycle -----

  predicate LowReserved(c: Cycle, pos: nat, i: nat)
    requires c.Valid()
  {
    Host(c, PosAfter(c, pos, i)) <= 1
  }

  predicate TopReserved(c: Cycle, pos: nat, i: nat)
    requires c.Valid()
  {
    Host(c, PosAfter(c, pos, i)) == Pow2(c.Width()) - 1
  }

  predicate MarkedStep(c: Cycle, pos: nat, i: nat)
    requires c.Valid()
  {
    HasMarker(Host(c, PosAfter(c, pos, i)))
  }

  /** Hosts 0 and 1 share all but one host bit, so they are 2^(width-1) steps apart. */
  lemma LowReservedOnce(c: Cycle, pos: nat, i: nat, j: nat)
    requires c.Valid() && c.Width() > 0
    requires i < j < i + Pow2(c.Width() - 1)
    requires LowReserved(c, pos, i)
    ensures !LowReserved(c, pos, j)
  {
    var w := c.Width();
    var p, q := PosAfter(c, pos, i), PosAfter(c, pos, j);
    NearStepsDiffer(c, pos, w - 1, i, j);
    GroupParts(c, p, w - 1);
    GroupParts(c, q, w - 1);
    if LowReserved(c, pos, j) {
      assert Shr(Host(c, p), 1) == Shr(Host(c, q), 1);
    }
  }

  lemma TopReservedOnce(c: Cycle, pos: nat, i: nat, j: nat)
    requires c.Valid()
    requires i < j < i + Pow2(c.Width())
    requires TopReserved(c, pos, i)
    ensures !TopReserved(c, pos, j)
  {
    NearAddressesDiffer(c, pos, i, j);
  }

  /** Widths below 40: at most one skip. */
  lemma NarrowDraw(c: Cycle, pos: nat)
    requires c.Valid() && c.Width() < 40 && pos < W128
    ensures Skips(c, pos, 8) <= 1 && CleanDraw(c, pos)
  {
    if c.Width() <= 2 {
      assert !FlaggedStep(c, pos, 0);
    } else {
      Pow2Monotone(1, c.Width() - 1);
      if FlaggedRun(c, pos, 2) {
        assert FlaggedStep(c, pos, 0) && FlaggedStep(c, pos, 1);
        LowReservedOnce(c, pos, 0, 1);
      }
    }
    SkipsBelow(c, pos, 2);
  }

  /** From width 40 up, among nine steps all but two of the flagged ones carry the marker. */
  lemma FewReserved(c: Cycle, pos: nat, n: nat) returns (z: nat, o: nat)
    requires c.Valid() && c.Width() >= 40 && n <= 9
    requires FlaggedRun(c, pos, n)
    ensures forall i | 0 <= i < n :: MarkedStep(c, pos, i) || i == z || i == o
    ensures z < n ==> LowReserved(c, pos, z)
    ensures o < n ==> MarkedStep(c, pos, o) || o == z || TopReserved(c, pos, o)
  {
    hide Pow2, Low, Bitwise;
    Pow2Values();
    Pow2Monotone(8, c.Width() - 1);
    Pow2Monotone(8, c.Width());
    z, o := n, n;
    if i :| 0 <= i < n && LowReserved(c, pos, i) {
      z := i;
    }
    if i :| 0 <= i < n && TopReserved(c, pos, i) {
      o := i;
    }
    forall i | 0 <= i < n
      ensures MarkedStep(c, pos, i) || i == z || i == o
    {
      assert FlaggedStep(c, pos, i);
      if LowReserved(c, pos, i) && i != z {
        LowReservedOnce(c, pos, if i < z then i else z, if i < z then z else i);
      }
      if TopReserved(c, pos, i) && i != o {
        TopReservedOnce(c, pos, if i < o then i else o, if i < o then o else i);
      }
    }
  }

  // ----- where the marker sits in the counter -----

  /** Counter bits width-40 .. width-25 drive the marker's 16 host bits. */
  function MarkerField(c: Cycle, v: nat): nat { CounterField(c, 24, 16, v) }

  lemma MarkedIff(c: Cycle, pos: nat)
    requires c.Valid() && c.Width() >= 40
    ensures HasMarker(Host(c, pos)) <==> Field(pos, c.Width() - 40, 16) == MarkerField(c, MARKER)
  {
    hide Pow2, Low, Shr;
    Pow2Values();
    HostFieldIff(c, pos, 24, 16, MARKER);
  }

  lemma AllOnesField(c: Cycle, pos: nat)
    requires c.Valid() && c.Width() >= 40
    requires Host(c, pos) == Pow2(c.Width()) - 1
    ensures Field(pos, c.Width() - 40, 16) == MarkerField(c, 0xffff)
  {
    var w := c.Width();
    Pow2Values();
    MaskField(w, 24, 16);
    HostFieldIff(c, pos, 24, 16, 0xffff);
  }

  /** The all-ones field lies half the ring away from the marker field. */
  lemma FieldsFarApart(c: Cycle)
    ensures MarkerField(c, 0xffff) == MarkerField(c, MARKER) + 32768
         || MarkerField(c, MARKER) == MarkerField(c, 0xffff) + 32768
    ensures MarkerField(c, MARKER) < 65536 && MarkerField(c, 0xffff) < 65536
  {
    hide Pow2;
    var m := Field(c.mask, 24, 16);
    var a, b := Xor(MARKER, m), Xor(0xffff, m);
    assert a / 2 == Xor(0x7fff, m / 2) && b / 2 == Xor(0x7fff, m / 2);
    assert a % 2 != b % 2;
    ReverseTop(a, 16);
    ReverseTop(b, 16);
    ReverseBit(a, 16, 0);
    ReverseBit(b, 16, 0);
    Pow2Small();
    Pow2Values();
  }

  // ----- the counter's low bits drift round a ring of 65536 blocks -----

  /** One step on the ring of length t. */
  function Step(y: nat, d: nat, t: nat): nat
    requires y < t && d <= t
  {
    if y + d < t then y + d else y + d - t
  }

  predicate InBlock(y: nat, start: nat, m: nat) { start <= y < start + m }

  /** The bits of a counter up to the top of the marker field. */
  function RingPos(c: Cycle, pos: nat, i: nat): nat
    requires c.Valid() && c.Width() >= 40
  {
    Low(PosAfter(c, pos, i), c.Width() - 24)
  }

  function BlockSize(width: nat): nat
    requires width >= 40
  {
    Pow2(width - 40)
  }

  lemma RingSize(width: nat)
    requires width >= 40
    ensures Pow2(width - 24) == 65536 * BlockSize(width)
  {
    Pow2Byte(width - 40);
    Pow2Byte(width - 32);
  }

  /** The marker field has value f exactly in the f-th block of the ring. */
  lemma FieldIsBlock(width: nat, pos: nat, f: nat)
    requires width >= 40
    ensures Field(pos, width - 40, 16) == f
       <==> InBlock(Low(pos, width - 24), Shl(f, width - 40), BlockSize(width))
  {
    var m, y := width - 40, Low(pos, width - 24);
    ShrLow(pos, m, width - 24);
    Split(y, m);
    if InBlock(y, Shl(f, m), Pow2(m)) {
      SplitUnique(f, y - Shl(f, m), m);
    }
  }

  lemma LowOfRingSum(a: nat, b: nat, n: nat)
    requires a < Pow2(n) && b < Pow2(n)
    ensures Low(a + b, n) == Step(a, b, Pow2(n))
  {
    if a + b < Pow2(n) {
      LowOfSmall(a + b, n);
    } else {
      var r := a + b - Pow2(n);
      ShlOfPow2(0, n);
      LowAddMultiple(r, 1, n);
      LowOfSmall(r, n);
    }
  }

  lemma RingStep(c: Cycle, pos: nat, i: nat)
    requires c.Valid() && c.Width() >= 40
    ensures RingPos(c, pos, i) < Pow2(c.Width() - 24)
    ensures Low(c.stride, c.Width() - 24) < Pow2(c.Width() - 24)
    ensures RingPos(c, pos, i + 1)
         == Step(RingPos(c, pos, i), Low(c.stride, c.Width() - 24), Pow2(c.Width() - 24))
  {
    hide Pow2, Low, Shl, Step;
    var n, x := c.Width() - 24, pos + Times(i, c.stride);
    LowOfPosAfter(c, pos, i, n);
    LowOfPosAfter(c, pos, i + 1, n);
    Split(x, n);
    Split(c.stride, n);
    LowAdd(x, c.stride, n);
    LowOfRingSum(Low(x, n), Low(c.stride, n), n);
  }

  /** The stride on the ring: f whole blocks and l more. */
  function StrideField(width: nat, stride: nat): nat
    requires width >= 40
  {
    Field(stride, width - 40, 16)
  }

  function StrideRest(width: nat, stride: nat): nat
    requires width >= 40
  {
    Low(stride, width - 40)
  }

  lemma StrideParts(width: nat, stride: nat)
    requires width >= 40
    ensures Low(stride, width - 24) == Shl(StrideField(width, stride), width - 40) + StrideRest(width, stride)
    ensures StrideRest(width, stride) < BlockSize(width)
    ensures StrideField(width, stride) < 65536
  {
    hide Pow2, Low, Shl;
    var m := width - 40;
    Pow2Values();
    ShrLow(stride, m, width - 24);
    LowLow(stride, m, width - 24);
    Split(Low(stride, width - 24), m);
    Split(stride, m);
    Split(Shr(stride, m), 16);
  }

  /** The stride moves less than a block along the ring, forwards or backwards. */
  predicate Slow(width: nat, stride: nat)
    requires width >= 40
  {
    StrideField(width, stride) == 0 || StrideField(width, stride) == 0xffff
  }

  /** How far a slow stride moves. */
  function Drift(width: nat, stride: nat): (d: nat)
    requires width >= 40
    ensures d <= BlockSize(width)
  {
    StrideParts(width, stride);
    if StrideField(width, stride) == 0 then StrideRest(width, stride)
    else BlockSize(width) - StrideRest(width, stride)
  }

  /** The strides for which some mask defeats the skip bound: those that move less than a
      seventh of a block. */
  predicate Fragile(width: nat, stride: nat)
    requires width >= 40
  {
    Slow(width, stride) && 7 * Drift(width, stride) < BlockSize(width)
  }

  lemma {:induction false} ShlMonotone(a: nat, b: nat, n: nat)
    requires a <= b
    ensures Shl(a, n) <= Shl(b, n)
    decreases n
  {
    if n > 0 {
      ShlMonotone(a, b, n - 1);
    }
  }

  /** Unless the stride field is 0 or 0xffff, the marker never shows twice in a row. */
  lemma NoTwoMarkersInARow(c: Cycle, pos: nat, i: nat)
    requires c.Valid() && c.Width() >= 40
    requires !Slow(c.Width(), c.stride)
    requires MarkedStep(c, pos, i)
    ensures !MarkedStep(c, pos, i + 1)
  {
    var w := c.Width();
    var f, m := StrideField(w, c.stride), BlockSize(w);
    MarkedIff(c, PosAfter(c, pos, i));
    MarkedIff(c, PosAfter(c, pos, i + 1));
    FieldIsBlock(w, PosAfter(c, pos, i), MarkerField(c, MARKER));
    FieldIsBlock(w, PosAfter(c, pos, i + 1), MarkerField(c, MARKER));
    RingStep(c, pos, i);
    StrideParts(w, c.stride);
    RingSize(w);
    ShlMonotone(1, f, w - 40);
    ShlMonotone(f, 65534, w - 40);
    ShlIsProduct(1, w - 40);
    ShlIsProduct(65534, w - 40);
  }

  lemma NoSixFlagged(c: Cycle, pos: nat)
    requires c.Valid() && c.Width() >= 40
    requires !Slow(c.Width(), c.stride)
    ensures !FlaggedRun(c, pos, 6)
  {
    forall i: nat
      ensures !MarkedStep(c, pos, i) || !MarkedStep(c, pos, i + 1)
    {
      if MarkedStep(c, pos, i) {
        NoTwoMarkersInARow(c, pos, i);
      }
    }
    assert !MarkedStep(c, pos, 0) || !MarkedStep(c, pos, 0 + 1);
    assert !MarkedStep(c, pos, 2) || !MarkedStep(c, pos, 2 + 1);
    assert !MarkedStep(c, pos, 4) || !MarkedStep(c, pos, 4 + 1);
    if FlaggedRun(c, pos, 6) {
      var z, o := FewReserved(c, pos, 6);
    }
  }

  // ----- slow drift -----

  /** Nine consecutive ring positions moving forward by d. */
  predicate Drifts(y: seq<nat>, d: nat, t: nat)
    requires d <= t
  {
    |y| == 9 && (forall i | 0 <= i < 9 :: y[i] < t) && (forall i | 0 <= i < 8 :: y[i + 1] == Step(y[i], d, t))
  }

  lemma {:induction false} DriftDistance(y: seq<nat>, d: nat, t: nat, i: nat, j: nat)
    requires d <= t && Drifts(y, d, t) && i <= j < 9 && Times(8, d) <= t
    ensures y[j] == y[i] + Times(j - i, d) || y[j] + t == y[i] + Times(j - i, d)
    decreases j
  {
    if i < j {
      DriftDistance(y, d, t, i, j - 1);
      TimesGrows(j - i, 8, d);
      assert y[j - 1 + 1] == Step(y[j - 1], d, t);
    }
  }

  lemma {:induction false} TimesGrows(a: nat, b: nat, d: nat)
    requires a <= b
    ensures Times(a, d) <= Times(b, d)
    decreases b
  {
    if a < b {
      TimesGrows(a, b - 1, d);
    }
  }

  /** No two of the nine positions lie in blocks half a ring apart. */
  lemma NeverFarApart(y: seq<nat>, d: nat, m: nat, b: nat, far: nat, i: nat, j: nat)
    requires 0 < d <= m && Drifts(y, d, 65536 * m)
    requires i < 9 && j < 9
    requires far == b + 32768 * m || b == far + 32768 * m
    requires InBlock(y[i], b, m)
    ensures !InBlock(y[j], far, m)
  {
    TimesIsProduct(8, d);
    var lo, hi := if i < j then i else j, if i < j then j else i;
    DriftDistance(y, d, 65536 * m, lo, hi);
    TimesGrows(hi - lo, 8, d);
  }

  /** Nine drifting positions, all in one block but for one exception anywhere and one in
      a far-away block: the exception is the first or the last, unless none is needed. */
  lemma ExceptionAtEnd(y: seq<nat>, d: nat, m: nat, b: nat, far: nat, z: nat, o: nat)
    requires 0 < d <= m <= 8 * d && Drifts(y, d, 65536 * m)
    requires far == b + 32768 * m || b == far + 32768 * m
    requires forall i | 0 <= i < 9 :: InBlock(y[i], b, m) || i == z || i == o
    requires o < 9 ==> InBlock(y[o], b, m) || o == z || InBlock(y[o], far, m)
    ensures forall i | 0 <= i < 9 && i != z :: InBlock(y[i], b, m)
    ensures z == 0 || z == 8
  {
    if o < 9 && o != z {
      var e := if 0 != z && 0 != o then 0 else if 1 != z && 1 != o then 1 else 2;
      assert InBlock(y[e], b, m);
      NeverFarApart(y, d, m, b, far, e, o);
    }
    TimesIsProduct(8, d);
    DriftDistance(y, d, 65536 * m, 0, 8);
  }

  /** The exception is first: the eight positions after it fill the block from its start. */
  lemma ExceptionFirst(y: seq<nat>, d: nat, m: nat, b: nat)
    requires 0 < d <= m && Drifts(y, d, 65536 * m)
    requires InBlock(y[1], b, m) && InBlock(y[8], b, m)
    requires y[0] < 65535 * m || b >= m
    ensures b <= y[0] + d && y[0] + 8 * d < b + m
  {
    TimesIsProduct(8, d);
    TimesIsProduct(7, d);
    DriftDistance(y, d, 65536 * m, 1, 8);
    assert y[0 + 1] == Step(y[0], d, 65536 * m);
  }

  lemma ExceptionLast(y: seq<nat>, d: nat, m: nat, b: nat)
    requires 0 < d <= m && Drifts(y, d, 65536 * m)
    requires InBlock(y[0], b, m) && InBlock(y[7], b, m)
    requires y[8] >= m || b + m <= 65535 * m
    ensures b + 8 * d <= y[8] && y[8] < b + m + d
  {
    TimesIsProduct(8, d);
    TimesIsProduct(7, d);
    DriftDistance(y, d, 65536 * m, 0, 7);
    assert y[7 + 1] == Step(y[7], d, 65536 * m);
  }

  // ----- the exact condition -----

  function RingRun(c: Cycle, pos: nat): (y: seq<nat>)
    requires c.Valid() && c.Width() >= 40
    ensures |y| == 9
  {
    seq(9, i requires 0 <= i < 9 => RingPos(c, pos, i))
  }

  function Backwards(y: seq<nat>): (r: seq<nat>)
    requires |y| == 9
    ensures |r| == 9
  {
    seq(9, i requires 0 <= i < 9 => y[8 - i])
  }

  /** The nine ring positions of a run, or the same backwards. */
  function RunPositions(c: Cycle, pos: nat, backwards: bool): (y: seq<nat>)
    requires c.Valid() && c.Width() >= 40
    ensures |y| == 9
  {
    if backwards then Backwards(RingRun(c, pos)) else RingRun(c, pos)
  }

  lemma BackwardsDrifts(y: seq<nat>, d: nat, t: nat)
    requires |y| == 9 && d <= t
    requires forall i | 0 <= i < 9 :: y[i] < t
    requires forall i | 0 <= i < 8 :: y[i] == Step(y[i + 1], d, t)
    ensures Drifts(Backwards(y), d, t)
  {
    var r := Backwards(y);
    forall i | 0 <= i < 8
      ensures r[i + 1] == Step(r[i], d, t)
    {
      assert y[7 - i] == Step(y[7 - i + 1], d, t);
    }
  }

  lemma ForwardRun(c: Cycle, pos: nat)
    requires c.Valid() && c.Width() >= 40 && StrideField(c.Width(), c.stride) == 0
    ensures StrideRest(c.Width(), c.stride) <= BlockSize(c.Width())
    ensures Drifts(RunPositions(c, pos, false), StrideRest(c.Width(), c.stride), 65536 * BlockSize(c.Width()))
  {
    var w := c.Width();
    StrideParts(w, c.stride);
    ShlIsProduct(0, w - 40);
    RingSize(w);
    forall i | 0 <= i < 9
      ensures RingPos(c, pos, i) < Pow2(w - 24)
      ensures RingPos(c, pos, i + 1) == Step(RingPos(c, pos, i), StrideRest(w, c.stride), Pow2(w - 24))
    {
      RingStep(c, pos, i);
    }
  }

  lemma StepBack(a: nat, d: nat, t: nat)
    requires a < t && 0 < d <= t
    ensures Step(a, t - d, t) < t && Step(Step(a, t - d, t), d, t) == a
  {
  }

  lemma BackwardStep(c: Cycle, pos: nat, i: nat)
    requires c.Valid() && c.Width() >= 40 && StrideField(c.Width(), c.stride) == 0xffff
    ensures var t, d := 65536 * BlockSize(c.Width()), BlockSize(c.Width()) - StrideRest(c.Width(), c.stride);
            && 0 < d <= BlockSize(c.Width())
            && RingPos(c, pos, i) < t && RingPos(c, pos, i + 1) < t
            && RingPos(c, pos, i) == Step(RingPos(c, pos, i + 1), d, t)
  {
    var w := c.Width();
    StrideParts(w, c.stride);
    ShlIsProduct(0xffff, w - 40);
    RingSize(w);
    RingStep(c, pos, i);
    StepBack(RingPos(c, pos, i), BlockSize(w) - StrideRest(w, c.stride), Pow2(w - 24));
  }

  lemma BackwardRun(c: Cycle, pos: nat)
    requires c.Valid() && c.Width() >= 40 && StrideField(c.Width(), c.stride) == 0xffff
    ensures 0 < BlockSize(c.Width()) - StrideRest(c.Width(), c.stride) <= BlockSize(c.Width())
    ensures Drifts(RunPositions(c, pos, true), BlockSize(c.Width()) - StrideRest(c.Width(), c.stride),
                   65536 * BlockSize(c.Width()))
  {
    var y, d, t := RingRun(c, pos), BlockSize(c.Width()) - StrideRest(c.Width(), c.stride),
                   65536 * BlockSize(c.Width());
    BackwardStep(c, pos, 0);
    forall i | 0 <= i < 9
      ensures y[i] < t
    {
      BackwardStep(c, pos, i);
    }
    forall i | 0 <= i < 8
      ensures y[i] == Step(y[i + 1], d, t)
    {
      BackwardStep(c, pos, i);
    }
    BackwardsDrifts(y, d, t);
  }

  lemma MarkedInBlock(c: Cycle, pos: nat, i: nat)
    requires c.Valid() && c.Width() >= 40
    ensures MarkedStep(c, pos, i)
       <==> InBlock(RingPos(c, pos, i), Shl(MarkerField(c, MARKER), c.Width() - 40), BlockSize(c.Width()))
  {
    MarkedIff(c, PosAfter(c, pos, i));
    FieldIsBlock(c.Width(), PosAfter(c, pos, i), MarkerField(c, MARKER));
  }

  lemma AllOnesInBlock(c: Cycle, pos: nat, i: nat)
    requires c.Valid() && c.Width() >= 40
    requires TopReserved(c, pos, i)
    ensures InBlock(RingPos(c, pos, i), Shl(MarkerField(c, 0xffff), c.Width() - 40), BlockSize(c.Width()))
  {
    AllOnesField(c, PosAfter(c, pos, i));
    FieldIsBlock(c.Width(), PosAfter(c, pos, i), MarkerField(c, 0xffff));
  }

  lemma BlocksFarApart(c: Cycle)
    requires c.Valid() && c.Width() >= 40
    ensures var m, b, far := BlockSize(c.Width()), Shl(MarkerField(c, MARKER), c.Width() - 40),
                             Shl(MarkerField(c, 0xffff), c.Width() - 40);
            b + m <= 65536 * m && (far == b + 32768 * m || b == far + 32768 * m)
  {
    var w, e, o := c.Width(), MarkerField(c, MARKER), MarkerField(c, 0xffff);
    FieldsFarApart(c);
    ShlMonotone(e, 65535, w - 40);
    ShlIsProduct(65535, w - 40);
    ShlIsProduct(32768, w - 40);
    if e < o {
      ShlAdd(e, 32768, w - 40);
    } else {
      ShlAdd(o, 32768, w - 40);
    }
  }

  // ----- where hosts 0 and 1 sit -----

  /** The counter of host 0, and its place on the ring. */
  function ZeroCounter(c: Cycle): nat
    requires c.Valid()
  {
    Reverse(c.mask, c.Width())
  }

  function ZeroPos(c: Cycle): nat
    requires c.Valid() && c.Width() >= 40
  {
    Low(ZeroCounter(c), c.Width() - 24)
  }

  /** The start of the marker's block. */
  function MarkerStart(c: Cycle): nat
    requires c.Valid() && c.Width() >= 40
  {
    Shl(MarkerField(c, MARKER), c.Width() - 40)
  }

  lemma ZeroCounterHost(c: Cycle)
    requires c.Valid()
    ensures Host(c, ZeroCounter(c)) == 0 && ZeroCounter(c) < W128
  {
    var w := c.Width();
    ReverseInvolution(c.mask, w);
    XorSelf(Low(c.mask, w));
    ReverseBit(c.mask, w, 0);
    Pow2Values();
    Pow2Monotone(w, 128);
  }

  /** Hosts 0 and 1 have one place on the ring. */
  lemma LowReservedPlace(c: Cycle, pos: nat)
    requires c.Valid() && c.Width() >= 40 && Host(c, pos) <= 1
    ensures Low(pos, c.Width() - 24) == ZeroPos(c)
  {
    var w, z := c.Width(), ZeroCounter(c);
    ZeroCounterHost(c);
    LowOfSmall(0, w - 1);
    assert Field(Host(c, pos), 1, w - 1) == 0 && Field(Host(c, z), 1, w - 1) == 0;
    HostFieldIff(c, pos, 1, w - 1, 0);
    HostFieldIff(c, z, 1, w - 1, 0);
    LowLow(pos, w - 24, w - 1);
    LowLow(z, w - 24, w - 1);
  }

  /** XOR with the marker keeps bit 0 and complements the fifteen bits above it. */
  lemma XorMarker(m: nat)
    requires m < 65536
    ensures Pow2(15) == 32768
    ensures Xor(MARKER, m) % 2 == m % 2
    ensures Xor(MARKER, m) / 2 == Pow2(15) - 1 - m / 2
  {
    hide Pow2, Bitwise;
    Pow2Small();
    XorComplement(m / 2, 15);
    XorBelow(0, 0x7fff, m % 2, m / 2);
  }

  /** The marker's block mirrors that of hosts 0 and 1 in the half ring they share. */
  lemma MirrorFields(c: Cycle)
    ensures MarkerField(c, 0) + MarkerField(c, MARKER) == if MarkerField(c, 0) < 32768 then 32767 else 98303
    ensures MarkerField(c, 0) < 65536 && MarkerField(c, MARKER) < 65536
  {
    var m := Field(c.mask, 24, 16);
    Pow2Values();
    Split(Shr(c.mask, 24), 16);
    XorZero(m);
    XorMarker(m);
    ReverseBit(m, 16, 0);
    ReverseBit(Xor(MARKER, m), 16, 0);
    MirrorHalves(m, Xor(MARKER, m), 15);
  }

  lemma MirrorHalves(m: nat, x: nat, n: nat)
    requires m / 2 < Pow2(n) && x % 2 == m % 2 && x / 2 == Pow2(n) - 1 - m / 2
    ensures Reverse(m, n + 1) + Reverse(x, n + 1)
         == if Reverse(m, n + 1) < Pow2(n) then Pow2(n) - 1 else 3 * Pow2(n) - 1
  {
    ReverseTop(m, n + 1);
    ReverseTop(x, n + 1);
    ReverseBit(m / 2, n, 0);
    ReverseComplement(m / 2, n);
  }

  lemma ZeroInBlock(c: Cycle)
    requires c.Valid() && c.Width() >= 40
    ensures InBlock(ZeroPos(c), Shl(MarkerField(c, 0), c.Width() - 40), BlockSize(c.Width()))
  {
    hide Pow2, Low, Shl, Shr, Bit;
    ZeroCounterHost(c);
    Pow2Values();
    LowOfSmall(0, 24);
    LowOfSmall(0, 16);
    HostFieldIff(c, ZeroCounter(c), 24, 16, 0);
    FieldIsBlock(c.Width(), ZeroCounter(c), MarkerField(c, 0));
  }

  /** The two blocks never touch across the ring's seam. */
  lemma NoSeam(c: Cycle)
    requires c.Valid() && c.Width() >= 40
    ensures var m := BlockSize(c.Width());
            && (ZeroPos(c) < 65535 * m || MarkerStart(c) >= m)
            && (ZeroPos(c) >= m || MarkerStart(c) + m <= 65535 * m)
  {
    var n, f, e := c.Width() - 40, MarkerField(c, 0), MarkerField(c, MARKER);
    ZeroInBlock(c);
    MirrorFields(c);
    ShlIsProduct(1, n);
    ShlIsProduct(65534, n);
    if e > 0 {
      ShlMonotone(1, e, n);
    } else {
      ShlMonotone(f, 65534, n);
    }
    if e < 65535 {
      ShlMonotone(e, 65534, n);
    } else {
      ShlMonotone(1, f, n);
    }
  }

  // ----- the exact condition, cycle by cycle -----

  /** The cycles on which nine positions in a row are flagged: the stride moves less than
      an eighth of the marker's block, or less than a seventh of it while hosts 0 and 1
      lie one move before or after the eight positions that fit in the block. */
  predicate Stuck(c: Cycle)
    requires c.Valid() && c.Width() >= 40
  {
    var d, m, b, z := Drift(c.Width(), c.stride), BlockSize(c.Width()), MarkerStart(c), ZeroPos(c);
    Slow(c.Width(), c.stride)
    && (8 * d < m || (b <= z + d && z + 8 * d < b + m) || (b + 8 * d <= z && z < b + m + d))
  }

  lemma StuckIsFragile(c: Cycle)
    requires c.Valid() && c.Width() >= 40 && Stuck(c)
    ensures Fragile(c.Width(), c.stride)
  {
  }

  /** Whether a slow stride drifts against the counter's direction. */
  predicate Backward(c: Cycle)
    requires c.Valid() && c.Width() >= 40
  {
    StrideField(c.Width(), c.stride) != 0
  }

  /** The nine ring positions of a run, in the order in which they drift forward. */
  function Drifting(c: Cycle, pos: nat): (y: seq<nat>)
    requires c.Valid() && c.Width() >= 40
    ensures |y| == 9
  {
    RunPositions(c, pos, Backward(c))
  }

  lemma SlowRun(c: Cycle, pos: nat)
    requires c.Valid() && c.Width() >= 40 && Slow(c.Width(), c.stride)
    ensures var m, d := BlockSize(c.Width()), Drift(c.Width(), c.stride);
            0 < d <= m && Drifts(Drifting(c, pos), d, 65536 * m)
  {
    if Backward(c) {
      BackwardRun(c, pos);
    } else {
      SlowStrideMoves(c.Width(), c.stride);
      ForwardRun(c, pos);
    }
  }

  /** The step of a run that is i-th in drifting order. */
  function DriftStep(c: Cycle, i: nat): (j: nat)
    requires c.Valid() && c.Width() >= 40 && i < 9
    ensures j < 9
  {
    if Backward(c) then 8 - i else i
  }

  lemma DriftingAt(c: Cycle, pos: nat, i: nat)
    requires c.Valid() && c.Width() >= 40 && i < 9
    ensures DriftStep(c, DriftStep(c, i)) == i
    ensures Drifting(c, pos)[i] == RingPos(c, pos, DriftStep(c, i))
    ensures MarkedStep(c, pos, DriftStep(c, i))
       <==> InBlock(Drifting(c, pos)[i], MarkerStart(c), BlockSize(c.Width()))
  {
    MarkedInBlock(c, pos, DriftStep(c, i));
  }

  /** In a flagged run of a slow cycle all positions carry the marker except, perhaps, one
      that is host 0 or 1. */
  lemma FlaggedDrift(c: Cycle, pos: nat) returns (z: nat, o: nat)
    requires c.Valid() && c.Width() >= 40 && Slow(c.Width(), c.stride) && FlaggedRun(c, pos, 9)
    ensures var y, m, b := Drifting(c, pos), BlockSize(c.Width()), MarkerStart(c);
            && (forall i | 0 <= i < 9 :: InBlock(y[i], b, m) || i == z || i == o)
            && (z < 9 ==> y[z] == ZeroPos(c))
            && (o < 9 ==> InBlock(y[o], b, m) || o == z
                          || InBlock(y[o], Shl(MarkerField(c, 0xffff), c.Width() - 40), m))
  {
    var z0, o0 := FewReserved(c, pos, 9);
    z, o := if z0 < 9 then DriftStep(c, z0) else 9, if o0 < 9 then DriftStep(c, o0) else 9;
    forall i | 0 <= i < 9
      ensures InBlock(Drifting(c, pos)[i], MarkerStart(c), BlockSize(c.Width())) || i == z || i == o
    {
      DriftingAt(c, pos, i);
    }
    if z0 < 9 {
      DriftingAt(c, pos, z);
      LowReservedPlace(c, PosAfter(c, pos, z0));
    }
    if o0 < 9 {
      DriftingAt(c, pos, o);
      if TopReserved(c, pos, o0) {
        AllOnesInBlock(c, pos, o0);
      }
    }
  }

  /** Nine flagged positions in a row happen only on a stuck cycle. */
  lemma NineFlaggedOnlyIfStuck(c: Cycle, pos: nat)
    requires c.Valid() && c.Width() >= 40 && FlaggedRun(c, pos, 9)
    ensures Stuck(c)
  {
    var w := c.Width();
    if !Slow(w, c.stride) {
      assert FlaggedRun(c, pos, 6);
      NoSixFlagged(c, pos);
    } else {
      var y, d, m, b := Drifting(c, pos), Drift(w, c.stride), BlockSize(w), MarkerStart(c);
      SlowRun(c, pos);
      BlocksFarApart(c);
      NoSeam(c);
      var z, o := FlaggedDrift(c, pos);
      if m <= 8 * d {
        ExceptionAtEnd(y, d, m, b, Shl(MarkerField(c, 0xffff), w - 40), z, o);
        if z == 0 {
          ExceptionFirst(y, d, m, b);
        } else {
          ExceptionLast(y, d, m, b);
        }
      }
    }
  }

  /** Every counter is n strides after some counter. */
  lemma StepsBefore(c: Cycle, q: nat, n: nat) returns (p: nat)
    requires c.Valid() && q < W128 && n <= Pow2(128)
    ensures p < W128 && PosAfter(c, p, n) == q
  {
    hide Pow2, Low, Shr, Times;
    p := PosAfter(c, q, Pow2(128) - n);
    PosAfterBound(c, q, Pow2(128) - n);
    PosAfterSum(c, q, Pow2(128) - n, n);
    TimesPow2(128, c.stride);
    LowAddMultiple(q, c.stride, 128);
    Pow2Values();
    LowOfSmall(q, 128);
  }

  /** A run whose j-th position, in drifting order, is the counter q. */
  lemma RunThrough(c: Cycle, q: nat, j: nat) returns (p: nat)
    requires c.Valid() && c.Width() >= 40 && q < W128 && j < 9
    ensures p < W128 && PosAfter(c, p, DriftStep(c, j)) == q
    ensures Drifting(c, p)[j] == Low(q, c.Width() - 24)
  {
    hide Pow2, Low, Shl, Shr;
    Pow2Values();
    p := StepsBefore(c, q, DriftStep(c, j));
    DriftingAt(c, p, j);
  }

  /** Positions of a drift, counted from its first or last. */
  lemma DriftFromFirst(y: seq<nat>, d: nat, t: nat, i: nat)
    requires d <= t && Drifts(y, d, t) && i < 9 && y[0] + 8 * d < t
    ensures y[i] == y[0] + i * d
  {
    TimesIsProduct(8, d);
    TimesIsProduct(i, d);
    TimesGrows(i, 8, d);
    DriftDistance(y, d, t, 0, i);
  }

  lemma DriftToLast(y: seq<nat>, d: nat, t: nat, i: nat)
    requires d <= t && Drifts(y, d, t) && i < 9 && 8 * d <= y[8]
    ensures y[i] + (8 - i) * d == y[8]
  {
    TimesIsProduct(8, d);
    TimesIsProduct(8 - i, d);
    TimesGrows(8 - i, 8, d);
    DriftDistance(y, d, t, i, 8);
  }

  /** A run is flagged when its drifting positions, but for one that is host 0, fill the
      marker's block. */
  lemma FlaggedByDrift(c: Cycle, p: nat, h: nat)
    requires c.Valid() && c.Width() >= 40
    requires forall i | 0 <= i < 9 && i != h :: InBlock(Drifting(c, p)[i], MarkerStart(c), BlockSize(c.Width()))
    requires h < 9 ==> Host(c, PosAfter(c, p, DriftStep(c, h))) == 0
    ensures FlaggedRun(c, p, 9)
  {
    forall i | 0 <= i < 9
      ensures FlaggedStep(c, p, i)
    {
      DriftingAt(c, p, i);
      DriftingAt(c, p, DriftStep(c, i));
    }
  }

  lemma MarkerStartBound(c: Cycle)
    requires c.Valid() && c.Width() >= 40
    ensures MarkerStart(c) + BlockSize(c.Width()) <= 65536 * BlockSize(c.Width()) <= W128
    ensures Low(MarkerStart(c), c.Width() - 24) == MarkerStart(c)
  {
    BlocksFarApart(c);
    RingSize(c.Width());
    Pow2Values();
    Pow2Monotone(c.Width() - 24, 128);
    LowOfSmall(MarkerStart(c), c.Width() - 24);
  }

  /** Less than an eighth of a block at a time: nine positions fit in it. */
  lemma NineFit(c: Cycle) returns (p: nat)
    requires c.Valid() && c.Width() >= 40 && Slow(c.Width(), c.stride)
    requires 8 * Drift(c.Width(), c.stride) < BlockSize(c.Width())
    ensures p < W128 && FlaggedRun(c, p, 9)
  {
    var d, m, b := Drift(c.Width(), c.stride), BlockSize(c.Width()), MarkerStart(c);
    MarkerStartBound(c);
    p := RunThrough(c, b, 0);
    SlowRun(c, p);
    forall i | 0 <= i < 9
      ensures InBlock(Drifting(c, p)[i], b, m)
    {
      DriftFromFirst(Drifting(c, p), d, 65536 * m, i);
      SmallMultiples(i, d);
    }
    FlaggedByDrift(c, p, 9);
  }

  lemma SmallMultiples(i: nat, d: nat)
    requires i < 9
    ensures 0 <= i * d <= 8 * d && (i > 0 ==> d <= i * d) && (i < 8 ==> i * d <= 7 * d)
  {
  }

  /** Host 0 one move before the block, and the next eight positions in it. */
  lemma ZeroThenEight(c: Cycle) returns (p: nat)
    requires c.Valid() && c.Width() >= 40 && Slow(c.Width(), c.stride)
    requires var d, m, b, z := Drift(c.Width(), c.stride), BlockSize(c.Width()), MarkerStart(c), ZeroPos(c);
             b <= z + d && z + 8 * d < b + m
    ensures p < W128 && FlaggedRun(c, p, 9)
  {
    var d, m, b, z := Drift(c.Width(), c.stride), BlockSize(c.Width()), MarkerStart(c), ZeroPos(c);
    MarkerStartBound(c);
    ZeroCounterHost(c);
    p := RunThrough(c, ZeroCounter(c), 0);
    SlowRun(c, p);
    forall i | 0 <= i < 9 && i != 0
      ensures InBlock(Drifting(c, p)[i], b, m)
    {
      DriftFromFirst(Drifting(c, p), d, 65536 * m, i);
      SmallMultiples(i, d);
    }
    FlaggedByDrift(c, p, 0);
  }

  /** Eight positions in the block, and host 0 one move after it. */
  lemma EightThenZero(c: Cycle) returns (p: nat)
    requires c.Valid() && c.Width() >= 40 && Slow(c.Width(), c.stride)
    requires var d, m, b, z := Drift(c.Width(), c.stride), BlockSize(c.Width()), MarkerStart(c), ZeroPos(c);
             b + 8 * d <= z && z < b + m + d
    ensures p < W128 && FlaggedRun(c, p, 9)
  {
    var d, m, b, z := Drift(c.Width(), c.stride), BlockSize(c.Width()), MarkerStart(c), ZeroPos(c);
    ZeroCounterHost(c);
    p := RunThrough(c, ZeroCounter(c), 8);
    SlowRun(c, p);
    forall i | 0 <= i < 9 && i != 8
      ensures InBlock(Drifting(c, p)[i], b, m)
    {
      DriftToLast(Drifting(c, p), d, 65536 * m, i);
      SmallMultiples(8 - i, d);
    }
    FlaggedByDrift(c, p, 8);
  }

  lemma StuckFails(c: Cycle) returns (p: nat)
    requires c.Valid() && c.Width() >= 40 && Stuck(c)
    ensures p < W128 && FlaggedRun(c, p, 9)
  {
    var d, m, b, z := Drift(c.Width(), c.stride), BlockSize(c.Width()), MarkerStart(c), ZeroPos(c);
    if 8 * d < m {
      p := NineFit(c);
    } else if b <= z + d && z + 8 * d < b + m {
      p := ZeroThenEight(c);
    } else {
      p := EightThenZero(c);
    }
  }

  /** Every draw of the cycle, from every position, is clean. */
  ghost predicate CleanCycle(c: Cycle)
    requires c.Valid()
  {
    forall pos: nat | pos < W128 :: CleanDraw(c, pos)
  }

  /** Eight skips suffice on a cycle exactly when the marker fits no host bits or the
      cycle is not stuck. */
  lemma CleanCycleIff(c: Cycle)
    requires c.Valid()
    ensures CleanCycle(c) <==> c.Width() < 40 || !Stuck(c)
  {
    if c.Width() < 40 || !Stuck(c) {
      forall pos: nat | pos < W128
        ensures CleanDraw(c, pos)
      {
        if c.Width() < 40 {
          NarrowDraw(c, pos);
        } else {
          UncleanIff(c, pos);
          if FlaggedRun(c, pos, 9) {
            NineFlaggedOnlyIfStuck(c, pos);
          }
        }
      }
    } else {
      var p := StuckFails(c);
      UncleanIff(c, p);
    }
  }

  // ----- the exact condition, stride by stride -----

  lemma {:induction false} LowIsOdd(s: nat, n: nat)
    requires s % 2 == 1 && n > 0
    ensures Low(s, n) % 2 == 1
  {
  }

  /** An odd stride with field 0 still moves. */
  lemma SlowStrideMoves(width: nat, stride: nat)
    requires width >= 40 && stride % 2 == 1 && StrideField(width, stride) == 0
    ensures StrideRest(width, stride) > 0
  {
    if width > 40 {
      LowIsOdd(stride, width - 40);
    }
  }

  /** The cycle whose mask puts host 0 at counter z. */
  lemma ZeroAt(prefix: Addr, bits: nat, stride: nat, z: nat) returns (c: Cycle)
    requires bits <= 88 && stride % 2 == 1 && stride < W128 && z < Pow2(104 - bits)
    ensures c.Valid() && c.prefix == prefix && c.bits == bits && c.stride == stride
    ensures ZeroPos(c) == z
  {
    hide Pow2, Low, Reverse;
    var w := 128 - bits;
    ReverseBit(z, w, 0);
    Pow2Values();
    Pow2Monotone(w, 128);
    c := Cycle(prefix, bits, stride, Reverse(z, w));
    ReverseInvolution(z, w);
    LowLow(z, w - 24, w);
    LowOfSmall(z, w - 24);
  }

  /** Every fragile stride has a mask whose cycle is stuck: one that puts hosts 0 and 1
      one move before the marker's block. */
  lemma FragileFails(prefix: Addr, bits: nat, stride: nat) returns (c: Cycle)
    requires bits <= 88 && stride % 2 == 1 && stride < W128
    requires Fragile(128 - bits, stride)
    ensures c.Valid() && c.prefix == prefix && c.bits == bits && c.stride == stride
    ensures Stuck(c)
  {
    hide Pow2, Low, Shl, Shr, Times, Bitwise, Reverse, Step;
    var w := 128 - bits;
    var m, d := BlockSize(w), Drift(w, stride);
    RingSize(w);
    var z := 0x4000 * m - d;
    c := ZeroAt(prefix, bits, stride, z);
    SlowRun(c, 0);
    ZeroInBlock(c);
    ShlIsProduct(0x3fff, w - 40);
    ShlIsProduct(0x4000, w - 40);
    OneBlock(z, MarkerField(c, 0), 0x3fff, w - 40);
    MirrorFields(c);
  }

  /** A ring position lies in one block only. */
  lemma OneBlock(y: nat, f: nat, g: nat, n: nat)
    requires InBlock(y, Shl(f, n), Pow2(n)) && InBlock(y, Shl(g, n), Pow2(n))
    ensures f == g
  {
    SplitUnique(f, y - Shl(f, n), n);
    SplitUnique(g, y - Shl(g, n), n);
  }

  /** Every cycle over this prefix with this stride is clean. */
  ghost predicate AlwaysClean(prefix: Addr, bits: nat, stride: nat)
    requires bits <= 128 && stride % 2 == 1 && stride < W128
  {
    forall mask: nat | mask < W128 :: CleanCycle(Cycle(prefix, bits, stride, mask))
  }

  /** The skip bound suffices, for every mask and every position, exactly when the
      marker fits no host bits or the stride is not fragile. */
  lemma AlwaysCleanIff(prefix: Addr, bits: nat, stride: nat)
    requires bits <= 128 && stride % 2 == 1 && stride < W128
    ensures AlwaysClean(prefix, bits, stride) <==> bits > 88 || !Fragile(128 - bits, stride)
  {
    if bits > 88 || !Fragile(128 - bits, stride) {
      forall mask: nat | mask < W128
        ensures CleanCycle(Cycle(prefix, bits, stride, mask))
      {
        var c := Cycle(prefix, bits, stride, mask);
        CleanCycleIff(c);
        if bits <= 88 && Stuck(c) {
          StuckIsFragile(c);
        }
      }
    } else {
      var c := FragileFails(prefix, bits, stride);
      CleanCycleIff(c);
      assert c == Cycle(prefix, bits, stride, c.mask);
    }
  }

  /** Away from the two slow stride fields at most five positions are skipped. */
  lemma QuickDraw(c: Cycle, pos: nat)
    requires c.Valid() && c.Width() >= 40 && pos < W128
    requires !Slow(c.Width(), c.stride)
    ensures Skips(c, pos, 8) <= 5 && CleanDraw(c, pos)
  {
    NoSixFlagged(c, pos);
    SkipsBelow(c, pos, 6);
  }

  /** Up to width 42 a move of one place is already too fast: no stride is fragile. */
  lemma NeverFragileUpTo42(width: nat, stride: nat)
    requires 40 <= width <= 42 && stride % 2 == 1
    ensures !Fragile(width, stride)
  {
    Pow2Monotone(width - 40, 2);
    StrideParts(width, stride);
    if StrideField(width, stride) == 0 {
      SlowStrideMoves(width, stride);
    }
  }

  // ----- the all-ones host -----

  /** The counter of the all-ones host. */
  lemma AllOnesCounter(c: Cycle) returns (pos: nat)
    requires c.Valid()
    ensures pos < W128 && Host(c, pos) == Pow2(c.Width()) - 1
  {
    var w := c.Width();
    var ones := Pow2(w) - 1;
    pos := CounterField(c, 0, w, ones);
    ReverseBit(Xor(ones, Field(c.mask, 0, w)), w, 0);
    Pow2Values();
    Pow2Monotone(w, 128);
    LowOfSmall(pos, w);
    HostFieldIff(c, pos, 0, w, ones);
    HostBound(c, pos);
    LowOfSmall(Host(c, pos), w);
  }

  /** Below width 64 the all-ones host is not flagged. */
  lemma AllOnesUnflagged(width: nat)
    requires width < 64
    ensures !Flagged(width, Pow2(width) - 1)
  {
    hide Pow2, Low, Shr;
    Pow2Small();
    if width > 2 {
      Pow2Monotone(3, width);
    }
    if width >= 40 {
      Pow2Values();
      MaskField(width, 24, 16);
    }
  }

  /** From width 64 up no draw, clean or not, returns the all-ones host. */
  lemma AllOnesNeverDrawn(c: Cycle, pos: nat)
    requires c.Valid() && c.Width() >= 64 && pos < W128
    ensures Host(c, DrawPos(c, pos)) != Pow2(c.Width()) - 1
  {
    var s := Skips(c, pos, 8);
    SkipsMeaning(c, pos, 8);
    FlaggedAtMeaning(c, DrawPos(c, pos));
    UncleanIff(c, pos);
    if TopReserved(c, pos, s) {
      assert FlaggedRun(c, pos, 9) && s == 8;
      NineFlaggedOnlyIfStuck(c, pos);
      FarFromMarker(c, pos);
    }
  }

  /** A flagged run of a slow cycle does not hold the all-ones host. */
  lemma FarFromMarker(c: Cycle, pos: nat)
    requires c.Valid() && c.Width() >= 40 && Slow(c.Width(), c.stride) && FlaggedRun(c, pos, 9)
    ensures !TopReserved(c, pos, 8)
  {
    hide Pow2, Low, FlaggedStep;
    if TopReserved(c, pos, 8) {
      var w := c.Width();
      var y, d, m, b, far := Drifting(c, pos), Drift(w, c.stride), BlockSize(w), MarkerStart(c),
                             Shl(MarkerField(c, 0xffff), w - 40);
      SlowRun(c, pos);
      BlocksFarApart(c);
      AllOnesInBlock(c, pos, 8);
      var last := DriftStep(c, 8);
      DriftingAt(c, pos, last);
      var z, o := FlaggedDrift(c, pos);
      var e := if last == 0 then (if z != 1 && o != 1 then 1 else if z != 2 && o != 2 then 2 else 3)
               else (if z != 0 && o != 0 then 0 else if z != 1 && o != 1 then 1 else 2);
      assert InBlock(y[e], b, m);
      NeverFarApart(y, d, m, b, far, e, last);
    }
  }
}

/** A cycle drawn from again and again, as a stream does from its origin: what such a
    sequence of draws is sure to hand out, and when it is clean throughout. */
module Draws {
  import opened Words
  import opened OddStride
  import opened Addresses
  import opened Cycles
  import opened Hygiene
  import opened SkipBound
  import opened Streams
  import opened Rotation

  /** The state after n draws. */
  function AfterDraws(s: CycleState, n: nat): (r: CycleState)
    requires s.Valid()
    ensures r.Valid() && r.cycle == s.cycle
  {
    if n == 0 then s else Draw(AfterDraws(s, n - 1)).next
  }

  /** Positions consumed by the first n draws. */
  function Offset(s: CycleState, n: nat): nat
    requires s.Valid()
  {
    if n == 0 then 0 else Offset(s, n - 1) + Draw(AfterDraws(s, n - 1)).used
  }

  /** The address of draw n, counted from 0. */
  function NthDraw(s: CycleState, n: nat): Addr
    requires s.Valid()
  {
    Draw(AfterDraws(s, n)).ip
  }

  lemma UsedBound(s: CycleState)
    requires s.Valid()
    ensures 1 <= Draw(s).used <= 9
  {
    SkipsMeaning(s.cycle, s.pos, MAX_CYCLE_SKIPS);
  }

  lemma {:induction false} AfterDrawsMeaning(s: CycleState, n: nat)
    requires s.Valid()
    ensures AfterDraws(s, n).pos == PosAfter(s.cycle, s.pos, Offset(s, n))
  {
    hide Draw, PosAfter;
    if n == 0 {
      PosAfterZero(s.cycle, s.pos);
    } else {
      var r := AfterDraws(s, n - 1);
      AfterDrawsMeaning(s, n - 1);
      DrawMeaning(r);
      PosAfterSum(s.cycle, s.pos, Offset(s, n - 1), Draw(r).used);
    }
  }

  /** A draw returns the address of the last position it consumes. */
  lemma NthDrawMeaning(s: CycleState, n: nat)
    requires s.Valid()
    ensures Offset(s, n) < Offset(s, n + 1) <= Offset(s, n) + 9
    ensures NthDraw(s, n) == AddrAt(s.cycle, PosAfter(s.cycle, s.pos, Offset(s, n + 1) - 1))
  {
    hide Draw, PosAfter, AddrAt;
    var r := AfterDraws(s, n);
    UsedBound(r);
    AfterDrawsMeaning(s, n);
    DrawMeaning(r);
    PosAfterSum(s.cycle, s.pos, Offset(s, n), Draw(r).used - 1);
  }

  lemma {:induction false} OffsetGrows(s: CycleState, i: nat, j: nat)
    requires s.Valid() && i <= j
    ensures Offset(s, i) + (j - i) <= Offset(s, j) <= Offset(s, i) + 9 * (j - i)
    decreases j
  {
    hide Draw;
    if i < j {
      OffsetGrows(s, i, j - 1);
      NthDrawMeaning(s, j - 1);
    }
  }

  /** The first 2^width / 9 draws are all different. */
  lemma DrawsDiffer(s: CycleState, i: nat, j: nat)
    requires s.Valid() && i < j && 9 * (j - i) < Pow2(s.cycle.Width())
    ensures NthDraw(s, i) != NthDraw(s, j)
  {
    hide Draw, PosAfter, AddrAt, NthDraw;
    NthDrawMeaning(s, i);
    NthDrawMeaning(s, j);
    OffsetGrows(s, i + 1, j + 1);
    NearAddressesDiffer(s.cycle, s.pos, Offset(s, i + 1) - 1, Offset(s, j + 1) - 1);
  }

  /** Every position is consumed by some draw. */
  lemma {:induction false} DrawOver(s: CycleState, a: nat) returns (n: nat)
    requires s.Valid()
    ensures n <= a && Offset(s, n) <= a < Offset(s, n + 1)
    decreases a
  {
    hide Draw;
    if a == 0 {
      n := 0;
    } else {
      n := DrawOver(s, a - 1);
      if a == Offset(s, n + 1) {
        n := n + 1;
      }
    }
    NthDrawMeaning(s, n);
  }

  /** Every host lies less than 2^width positions ahead. */
  lemma Ahead(s: CycleState, p: nat) returns (a: nat)
    requires s.Valid()
    ensures a < Pow2(s.cycle.Width())
    ensures Low(PosAfter(s.cycle, s.pos, a), s.cycle.Width()) == Low(p, s.cycle.Width())
  {
    hide Pow2, Low, Times;
    a := StepsReach(s.cycle.stride, s.pos, p, s.cycle.Width());
    LowOfPosAfter(s.cycle, s.pos, a, s.cycle.Width());
  }

  /** Counters that agree on the width's bits have the same host. */
  lemma SameHost(c: Cycle, p: nat, q: nat)
    requires c.Valid() && Low(p, c.Width()) == Low(q, c.Width())
    ensures Host(c, p) == Host(c, q) && AddrAt(c, p) == AddrAt(c, q)
  {
    hide AddrAt, Host, Low;
    AddrAtInjective(c, p, q);
    AddrAtParts(c, p);
    AddrAtParts(c, q);
  }

  lemma SameFlags(c: Cycle, p: nat, q: nat)
    requires c.Valid() && Low(p, c.Width()) == Low(q, c.Width()) && FlaggedRun(c, p, 9)
    ensures FlaggedRun(c, q, 9)
  {
    hide Low, Times, Host;
    var w := c.Width();
    forall i | 0 <= i < 9
      ensures FlaggedStep(c, q, i)
    {
      assert FlaggedStep(c, p, i);
      LowOfPosAfter(c, p, i, w);
      LowOfPosAfter(c, q, i, w);
      LowAddLeft(p, Times(i, c.stride), w);
      LowAddLeft(q, Times(i, c.stride), w);
      SameHost(c, PosAfter(c, p, i), PosAfter(c, q, i));
    }
  }

  // ----- clean throughout -----

  /** Nine flagged positions ahead, wherever the draws fall, spoil one of them before
      they are passed. */
  lemma SpoiledBy(s: CycleState, a: nat) returns (n: nat)
    requires s.Valid() && FlaggedRun(s.cycle, PosAfter(s.cycle, s.pos, a), 9)
    ensures n <= a && NeedsHygiene(s.cycle.Width(), NthDraw(s, n))
  {
    hide PosAfter, AddrAt, NeedsHygiene, NthDraw, FlaggedAt, Offset;
    var c := s.cycle;
    n := DrawOver(s, a);
    NthDrawMeaning(s, n);
    var r := Offset(s, n + 1) - 1;
    PosAfterSum(c, s.pos, a, r - a);
    assert FlaggedStep(c, PosAfter(c, s.pos, a), r - a);
    FlaggedAtMeaning(c, PosAfter(c, s.pos, r));
  }

  /** Nine flagged positions anywhere on the cycle spoil one of the first 2^width draws. */
  lemma FlaggedRunIsMet(s: CycleState, p: nat) returns (n: nat)
    requires s.Valid() && FlaggedRun(s.cycle, p, 9)
    ensures n < Pow2(s.cycle.Width()) && NeedsHygiene(s.cycle.Width(), NthDraw(s, n))
  {
    hide PosAfter, AddrAt, NeedsHygiene, NthDraw, FlaggedRun, Pow2;
    var a := Ahead(s, p);
    SameFlags(s.cycle, p, PosAfter(s.cycle, s.pos, a));
    n := SpoiledBy(s, a);
  }

  /** One of the draws before the bound-th is flagged. */
  ghost predicate FlaggedWithin(s: CycleState, bound: nat)
    requires s.Valid()
  {
    exists n: nat :: n < bound && NeedsHygiene(s.cycle.Width(), NthDraw(s, n))
  }

  /** Every address ever drawn is clean. */
  ghost predicate CleanStream(s: CycleState)
    requires s.Valid()
  {
    forall n: nat :: !NeedsHygiene(s.cycle.Width(), NthDraw(s, n))
  }

  /** A stream hands out clean addresses for ever exactly when the marker fits no host
      bits or its cycle is not stuck, wherever it starts; and when it does not, one of its
      first 2^width draws is flagged. */
  lemma CleanStreamIff(s: CycleState)
    requires s.Valid()
    ensures CleanStream(s) <==> s.cycle.Width() < 40 || !Stuck(s.cycle)
    ensures CleanStream(s) <==> !FlaggedWithin(s, Pow2(s.cycle.Width()))
  {
    hide NthDraw, NeedsHygiene, Stuck, AddrAt, Pow2;
    CleanCycleIff(s.cycle);
    if s.cycle.Width() >= 40 && Stuck(s.cycle) {
      var p := StuckFails(s.cycle);
      var n := FlaggedRunIsMet(s, p);
    } else {
      forall n: nat
        ensures !NeedsHygiene(s.cycle.Width(), NthDraw(s, n))
      {
        CleanNth(s, n);
      }
    }
  }

  lemma CleanNth(s: CycleState, n: nat)
    requires s.Valid() && CleanCycle(s.cycle)
    ensures !NeedsHygiene(s.cycle.Width(), NthDraw(s, n))
  {
    hide NeedsHygiene, AddrAt, DrawPos, PosAfter;
    assert CleanDraw(s.cycle, AfterDraws(s, n).pos);
  }

  // ----- how soon -----

  /** Where a slow cycle is on its ring, counted in the direction in which it drifts. */
  function Place(c: Cycle, pos: nat, i: nat): nat
    requires c.Valid() && c.Width() >= 40
  {
    RingStep(c, pos, i);
    if Backward(c) then Pow2(c.Width() - 24) - 1 - RingPos(c, pos, i) else RingPos(c, pos, i)
  }

  /** The start of the marker's block, counted likewise. */
  function BlockPlace(c: Cycle): (b: nat)
    requires c.Valid() && c.Width() >= 40
    ensures b + BlockSize(c.Width()) <= 65536 * BlockSize(c.Width())
  {
    MarkerStartBound(c);
    if Backward(c) then 65536 * BlockSize(c.Width()) - BlockSize(c.Width()) - MarkerStart(c) else MarkerStart(c)
  }

  lemma PlaceStep(c: Cycle, pos: nat, i: nat)
    requires c.Valid() && c.Width() >= 40 && Slow(c.Width(), c.stride)
    ensures var d, t := Drift(c.Width(), c.stride), 65536 * BlockSize(c.Width());
            && 0 < d && Place(c, pos, i) < t && Place(c, pos, i + 1) == Step(Place(c, pos, i), d, t)
  {
    hide Low, Shl, Shr, Pow2, RingPos;
    var w := c.Width();
    RingSize(w);
    RingStep(c, pos, i);
    RingStep(c, pos, i + 1);
    StrideParts(w, c.stride);
    if Backward(c) {
      ShlIsProduct(0xffff, w - 40);
    } else {
      SlowStrideMoves(w, c.stride);
      ShlIsProduct(0, w - 40);
    }
  }

  lemma PlaceMarked(c: Cycle, pos: nat, i: nat)
    requires c.Valid() && c.Width() >= 40
    ensures MarkedStep(c, pos, i) <==> InBlock(Place(c, pos, i), BlockPlace(c), BlockSize(c.Width()))
  {
    hide Low, Shl, Shr, Pow2, RingPos, MarkedStep;
    RingSize(c.Width());
    RingStep(c, pos, i);
    MarkedInBlock(c, pos, i);
  }

  /** Drifting by d, the block is entered within its first d places, after g places and
      less than one move. */
  lemma {:induction false} Enters(c: Cycle, pos: nat, i: nat, g: nat) returns (a: nat)
    requires c.Valid() && c.Width() >= 40 && Slow(c.Width(), c.stride)
    requires var y, b, t := Place(c, pos, i), BlockPlace(c), 65536 * BlockSize(c.Width());
             y + g == b || y + g == b + t
    ensures i <= a && InBlock(Place(c, pos, a), BlockPlace(c), Drift(c.Width(), c.stride))
    ensures Times(a - i, Drift(c.Width(), c.stride)) < g + Drift(c.Width(), c.stride)
    decreases g
  {
    hide Place, BlockPlace, Drift, BlockSize, Slow;
    var d := Drift(c.Width(), c.stride);
    PlaceStep(c, pos, i);
    if g == 0 {
      a := i;
    } else if g < d {
      a := i + 1;
      assert Times(1, d) == d;
    } else {
      a := Enters(c, pos, i + 1, g - d);
      assert Times(a - i, d) == Times(a - i - 1, d) + d;
    }
  }

  lemma {:induction false} PlacesOn(c: Cycle, pos: nat, a: nat, k: nat)
    requires c.Valid() && c.Width() >= 40 && Slow(c.Width(), c.stride)
    requires Place(c, pos, a) + k * Drift(c.Width(), c.stride) < 65536 * BlockSize(c.Width())
    ensures Place(c, pos, a + k) == Place(c, pos, a) + k * Drift(c.Width(), c.stride)
    decreases k
  {
    hide Place, Drift, BlockSize, Slow;
    if k > 0 {
      PlacesOn(c, pos, a, k - 1);
      PlaceStep(c, pos, a + k - 1);
    }
  }

  /** Entered within its first d places, a block of nine moves holds nine positions. */
  lemma NineFromEntry(c: Cycle, pos: nat, a: nat)
    requires c.Valid() && c.Width() >= 40 && Slow(c.Width(), c.stride)
    requires 9 * Drift(c.Width(), c.stride) <= BlockSize(c.Width())
    requires InBlock(Place(c, pos, a), BlockPlace(c), Drift(c.Width(), c.stride))
    ensures FlaggedRun(c, PosAfter(c, pos, a), 9)
  {
    hide Place, BlockPlace, Drift, BlockSize, Slow, PosAfter, Host;
    forall k | 0 <= k < 9
      ensures FlaggedStep(c, PosAfter(c, pos, a), k)
    {
      SmallMultiples(k, Drift(c.Width(), c.stride));
      PlacesOn(c, pos, a, k);
      PlaceMarked(c, pos, a + k);
      PosAfterSum(c, pos, a, k);
    }
  }

  /** A cycle that moves at most a ninth of the marker's block at a time fails once in
      every lap of the ring: with drift d, among the first ring / d draws and one more. */
  lemma FailsEachLap(s: CycleState) returns (n: nat)
    requires s.Valid() && s.cycle.Width() >= 40 && Slow(s.cycle.Width(), s.cycle.stride)
    requires 9 * Drift(s.cycle.Width(), s.cycle.stride) <= BlockSize(s.cycle.Width())
    ensures NeedsHygiene(s.cycle.Width(), NthDraw(s, n))
    ensures n * Drift(s.cycle.Width(), s.cycle.stride)
            < 65536 * BlockSize(s.cycle.Width()) + Drift(s.cycle.Width(), s.cycle.stride)
  {
    hide Place, BlockPlace, Drift, BlockSize, Slow, NeedsHygiene, NthDraw, FlaggedRun, PosAfter;
    var c := s.cycle;
    var d, t, y, b := Drift(c.Width(), c.stride), 65536 * BlockSize(c.Width()), Place(c, s.pos, 0), BlockPlace(c);
    PlaceStep(c, s.pos, 0);
    var a := Enters(c, s.pos, 0, if y <= b then b - y else b + t - y);
    NineFromEntry(c, s.pos, a);
    n := SpoiledBy(s, a);
    TimesGrows(n, a, d);
    TimesIsProduct(n, d);
  }

  // ----- the all-ones host -----

  /** Draw n returns the all-ones host. */
  predicate DrawsAllOnes(s: CycleState, n: nat)
    requires s.Valid()
  {
    Low(Num(NthDraw(s, n)), s.cycle.Width()) == Pow2(s.cycle.Width()) - 1
  }

  /** Below width 64 every stream hands it out among its first 2^width draws. */
  lemma AllOnesHandedOut(s: CycleState) returns (n: nat)
    requires s.Valid() && s.cycle.Width() < 64
    ensures n < Pow2(s.cycle.Width()) && DrawsAllOnes(s, n)
  {
    hide PosAfter, AddrAt, NthDraw, Offset, Flagged;
    var c := s.cycle;
    var p := AllOnesCounter(c);
    var a := Ahead(s, p);
    n := DrawOver(s, a);
    SameHost(c, p, PosAfter(c, s.pos, a));
    AllOnesUnflagged(c.Width());
    NthDrawMeaning(s, n);
    StopsAt(s, n, a);
    AddrAtParts(c, p);
  }

  /** A draw does not run past an unflagged position. */
  lemma StopsAt(s: CycleState, n: nat, a: nat)
    requires s.Valid()
    ensures Offset(s, n) <= a < Offset(s, n + 1) && !FlaggedAt(s.cycle, PosAfter(s.cycle, s.pos, a)) ==>
              Offset(s, n + 1) == a + 1
  {
    hide PosAfter, AddrAt, FlaggedAt;
    var q, t := AfterDraws(s, n).pos, Offset(s, n);
    AfterDrawsMeaning(s, n);
    SkipsMeaning(s.cycle, q, MAX_CYCLE_SKIPS);
    if t <= a {
      PosAfterSum(s.cycle, s.pos, t, a - t);
    }
  }

  /** The all-ones host is handed out by some draw exactly when the width is below 64. */
  lemma AllOnesDrawnIff(s: CycleState)
    requires s.Valid()
    ensures (exists n: nat :: DrawsAllOnes(s, n)) <==> s.cycle.Width() < 64
  {
    if s.cycle.Width() < 64 {
      var n := AllOnesHandedOut(s);
    } else {
      forall n: nat
        ensures !DrawsAllOnes(s, n)
      {
        var q := AfterDraws(s, n).pos;
        AllOnesNeverDrawn(s.cycle, q);
        AddrAtParts(s.cycle, DrawPos(s.cycle, q));
      }
    }
  }
}

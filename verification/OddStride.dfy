/** Number theory of odd strides: stepping by an odd number permutes the residues
    modulo every power of two. */
module OddStride {
  import opened Words

  lemma {:induction false} LowSucc(x: nat, m: nat)
    ensures Low(x, m + 1) == Low(x, m) + (if Shr(x, m) % 2 == 1 then Pow2(m) else 0)
    decreases m
  {
    if m > 0 {
      LowSucc(x / 2, m - 1);
    }
  }

  lemma {:induction false} TimesHalf(d: nat, s: nat)
    ensures Times(d, s) == 2 * Times(d / 2, s) + (if d % 2 == 1 then s else 0)
  {
    if d >= 2 {
      TimesHalf(d - 2, s);
      assert d / 2 == (d - 2) / 2 + 1;
    }
  }

  /** An odd factor can be cancelled modulo 2^n. */
  lemma {:induction false} OddCancel(s: nat, d: nat, n: nat)
    requires s % 2 == 1
    requires Low(Times(d, s), n) == 0
    ensures Low(d, n) == 0
    decreases n
  {
    if n > 0 {
      TimesHalf(d, s);
      OddCancel(s, d / 2, n - 1);
    }
  }

  lemma HalfSum(x: nat, y: nat)
    requires x % 2 == (x + y) % 2
    ensures y % 2 == 0 && (x + y) / 2 == x / 2 + y / 2
  {
  }

  lemma {:induction false} LowDifference(x: nat, y: nat, n: nat)
    requires Low(x, n) == Low(x + y, n)
    ensures Low(y, n) == 0
    decreases n
  {
    if n > 0 {
      LowStep(x, n);
      LowStep(x + y, n);
      HalfSum(x, y);
      LowDifference(x / 2, y / 2, n - 1);
    }
  }

  lemma {:induction false} LowZeroIsLarge(y: nat, n: nat)
    requires Low(y, n) == 0
    ensures y == 0 || y >= Pow2(n)
  {
    if y < Pow2(n) {
      LowOfSmall(y, n);
    }
  }

  /** A multiple of 2^n times anything vanishes modulo 2^n. */
  lemma MultipleVanishes(d: nat, s: nat, n: nat)
    requires Low(d, n) == 0
    ensures Low(Times(d, s), n) == 0
  {
    TimesComm(d, s);
    LowTimes(s, d, n);
    TimesIsProduct(s, 0);
    LowOfSmall(0, n);
  }

  /** Steps of an odd stride meet modulo 2^n exactly when a multiple of 2^n apart. */
  lemma StepsMeetIff(s: nat, p: nat, i: nat, j: nat, n: nat)
    requires s % 2 == 1 && i <= j
    ensures Low(p + Times(i, s), n) == Low(p + Times(j, s), n) <==> Low(j - i, n) == 0
  {
    hide Low, Times;
    var x, y := p + Times(i, s), Times(j - i, s);
    TimesSum(i, j - i, s);
    assert p + Times(j, s) == x + y;
    if Low(x, n) == Low(x + y, n) {
      LowDifference(x, y, n);
      OddCancel(s, j - i, n);
    }
    if Low(j - i, n) == 0 {
      MultipleVanishes(j - i, s, n);
      LowAddLeft(y, x, n);
    }
  }

  /** Adding an odd multiple of 2^m keeps the low m bits and flips bit m. */
  lemma OddMultipleFlips(x: nat, s: nat, m: nat)
    requires s % 2 == 1
    ensures Low(x + Shl(s, m), m) == Low(x, m)
    ensures Shr(x + Shl(s, m), m) == Shr(x, m) + s
    ensures Bit(x + Shl(s, m), m) != Bit(x, m)
  {
    LowAddMultiple(x, s, m);
    BitShr(x, m, 0);
    BitShr(x + Shl(s, m), m, 0);
  }

  /** If x meets t modulo 2^m, then x or x moved by an odd multiple of 2^m meets it modulo 2^(m+1). */
  lemma LowMeetsOneUp(x: nat, s: nat, t: nat, m: nat)
    requires s % 2 == 1
    requires Low(x, m) == Low(t, m)
    ensures Low(x, m + 1) == Low(t, m + 1) || Low(x + Shl(s, m), m + 1) == Low(t, m + 1)
  {
    hide Pow2, Low, Shr;
    OddMultipleFlips(x, s, m);
    LowSucc(x, m);
    LowSucc(t, m);
    LowSucc(x + Shl(s, m), m);
  }

  /** Every residue is reached within 2^n steps. */
  lemma {:induction false} StepsReach(s: nat, p: nat, t: nat, n: nat) returns (i: nat)
    requires s % 2 == 1
    ensures i < Pow2(n)
    ensures Low(p + Times(i, s), n) == Low(t, n)
    decreases n
  {
    hide Shl, Times;
    if n == 0 {
      i := 0;
    } else {
      i := StepsReach(s, p, t, n - 1);
      var h := Pow2(n - 1);
      LowMeetsOneUp(p + Times(i, s), s, t, n - 1);
      if Low(p + Times(i, s), n) != Low(t, n) {
        TimesSum(i, h, s);
        TimesPow2(n - 1, s);
        i := i + h;
      }
    }
  }
}

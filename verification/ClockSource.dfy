/** The multiplier and shift that turn the cycles of a clock into another unit of time. */
module ClockSource {
  import opened Powers
  import Div64

  const WORD: nat := Div64.WORD
  const DOUBLE_WORD: nat := Div64.DOUBLE_WORD

  /** The dividend of the multiplier: the target frequency scaled, plus half the divisor for rounding. */
  function Scaled(from: nat, to: nat, shift: nat): nat {
    to * Pow2(shift) + from / 2
  }

  function Multiplier(from: nat, to: nat, shift: nat): nat
    requires from > 0
  {
    Scaled(from, to, shift) / from
  }

  /** A pair converts with an error of at most half a unit. */
  ghost predicate Accurate(from: nat, to: nat, mult: nat, shift: nat) {
    -(from / 2) <= mult * from - to * Pow2(shift) <= from / 2
  }

  /** The bits a multiplier may have: one fewer than a word for each bit of the range above a word. */
  function Bits(range: nat): int {
    32 - Fls(range / WORD)
  }

  // ----- the multiplier -----

  lemma MultiplierAccurate(from: nat, to: nat, shift: nat)
    requires from > 0
    ensures Accurate(from, to, Multiplier(from, to, shift), shift)
  {
    hide Pow2;
    DivisionBounds(Scaled(from, to, shift), from);
    var m := Multiplier(from, to, shift);
    assert (m + 1) * from == m * from + from;
  }

  lemma MultiplierBelow(from: nat, to: nat, shift: nat, bound: nat)
    requires from > 0
    ensures Multiplier(from, to, shift) < bound <==> Scaled(from, to, shift) < bound * from
  {
    hide Pow2, Scaled;
    DivisionBounds(Scaled(from, to, shift), from);
    var m := Multiplier(from, to, shift);
    if m < bound {
      MulMono(m + 1, bound, from);
    } else {
      MulMono(bound, m, from);
    }
  }

  /** A larger shift never has a smaller multiplier. */
  lemma {:induction false} MultiplierGrows(from: nat, to: nat, low: nat, high: nat)
    requires from > 0 && low <= high
    ensures Multiplier(from, to, low) <= Multiplier(from, to, high)
    decreases high - low
  {
    if low < high {
      MultiplierGrows(from, to, low, high - 1);
      var m := Multiplier(from, to, high);
      MultiplierBelow(from, to, high, m + 1);
      assert to * Pow2(high) == 2 * (to * Pow2(high - 1));
      MultiplierBelow(from, to, high - 1, m + 1);
    }
  }

  /** Neither the shifted frequency nor the rounding leaves 64 bits. */
  lemma ScaledFits(from: nat, to: nat, shift: nat)
    requires from < WORD && to < WORD && shift <= 32
    ensures Scaled(from, to, shift) < DOUBLE_WORD
  {
    PowMonotone(shift, 32);
    Words();
    MulMono(Pow2(shift), WORD, to);
    MulMono(to, WORD - 1, WORD);
  }

  // ----- powers -----

  lemma {:induction false} PowMonotone(a: nat, b: nat)
    requires a <= b
    ensures Pow2(a) <= Pow2(b)
    decreases b - a
  {
    if a < b {
      PowMonotone(a, b - 1);
    }
  }

  lemma Words()
    ensures Pow2(0) == 1 && Pow2(1) == 2 && Pow2(32) == WORD && Pow2(64) == DOUBLE_WORD
  {
    assert Pow2(8) == 256;
    Pow2Adds(8, 8);
    Pow2Adds(16, 16);
    Pow2Adds(32, 32);
  }

  lemma WordBits(x: nat)
    requires x < WORD
    ensures Fls(x) <= 32
  {
    if Fls(x) > 32 {
      PowMonotone(32, Fls(x) - 1);
      Words();
    }
  }

  // ----- the range -----

  /** The bits of a range bound it from both sides. */
  lemma RangeBounds(range: nat)
    requires range < DOUBLE_WORD
    ensures 0 <= Bits(range) <= 32
    ensures range * Pow2(Bits(range)) < DOUBLE_WORD
    ensures Bits(range) < 32 ==> range * Pow2(Bits(range)) >= DOUBLE_WORD / 2
  {
    hide Pow2;
    var high := range / WORD;
    var f := Fls(high);
    WordBits(high);
    Words();
    var p := Pow2(32 - f);
    assert p * Pow2(f) == WORD by {
      Pow2Adds(32 - f, f);
    }
    if f == 0 {
      assert range * Pow2(32) == range * WORD;
    } else {
      assert 2 * Pow2(f - 1) == Pow2(f) by {
        Pow2Adds(1, f - 1);
      }
      RangeTimes(range, p, Pow2(f - 1));
    }
  }

  lemma RangeTimes(range: nat, p: nat, half: nat)
    requires half <= range / WORD < 2 * half && p * (2 * half) == WORD
    ensures DOUBLE_WORD / 2 <= range * p < DOUBLE_WORD
  {
    assert half * WORD <= range < 2 * half * WORD;
    MulMono(half * WORD, range, p);
    assert p > 0;
    assert 2 * half * WORD * p == WORD * (p * (2 * half));
    assert half * WORD * p * 2 == WORD * (p * (2 * half));
    CancelLess(range * 1, 2 * half * WORD, 1);
    assert range * p < 2 * half * WORD * p;
  }

  method LimitingShift(range: nat) returns (sftacc: nat)
    requires range < DOUBLE_WORD
    ensures sftacc == Bits(range)
  {
    var tmp := range / WORD;
    WordBits(tmp);
    sftacc := 32;
    while tmp > 0
      invariant tmp >= 0 && sftacc - Fls(tmp) == Bits(range) >= 0
    {
      tmp := tmp / 2;
      sftacc := sftacc - 1;
    }
  }

  // ----- the search -----

  /** Some shift from 32 down to 1 has a multiplier that fits. */
  predicate Fits(from: nat, to: nat, maxsec: nat) {
    0 <= Bits(maxsec * from) && Scaled(from, to, 1) < Pow2(Bits(maxsec * from)) * from
  }

  /** A shift whose multiplier fits a word and converts the whole range within 64 bits. */
  predicate Converts(from: nat, to: nat, maxsec: nat, shift: nat)
    requires from > 0
  {
    Multiplier(from, to, shift) < WORD && maxsec * from * Multiplier(from, to, shift) < DOUBLE_WORD
  }

  ghost predicate LargestConverting(from: nat, to: nat, maxsec: nat, shift: nat)
    requires from > 0
  {
    forall s :: shift < s <= 32 ==> !Converts(from, to, maxsec, s)
  }

  /** The multipliers of all shifts above have more bits than the search allows. */
  ghost predicate TooLargeAbove(from: nat, to: nat, maxsec: nat, shift: nat)
    requires from > 0
  {
    0 <= Bits(maxsec * from) && forall s :: shift < s <= 32 ==> Multiplier(from, to, s) >= Pow2(Bits(maxsec * from))
  }

  /** No shift above has a multiplier that fits a word and keeps the converted range in 63 bits. */
  ghost predicate NoneAbove(from: nat, to: nat, maxsec: nat, shift: nat)
    requires from > 0
  {
    forall s :: shift < s <= 32 ==>
      Multiplier(from, to, s) >= WORD || maxsec * from * Multiplier(from, to, s) >= DOUBLE_WORD / 2
  }

  /** The target is nearly the source: the multipliers of shifts 0 and 1 are both 1. */
  predicate NearlyOne(from: nat, to: nat) {
    from <= to + from / 2 && 2 * to + from / 2 < 2 * from
  }

  /** The search proper: the first shift from 32 down whose multiplier fits; shift 0 keeps the multiplier of shift 1. */
  method Search(from: nat, to: nat, sftacc: nat) returns (tmp: nat, sft: nat)
    requires 0 < from < WORD && to < WORD
    ensures sft <= 32
    ensures forall s :: sft < s <= 32 ==> Multiplier(from, to, s) >= Pow2(sftacc)
    ensures sft > 0 ==> tmp == Multiplier(from, to, sft) < Pow2(sftacc)
    ensures sft == 0 ==> tmp == Multiplier(from, to, 1)
  {
    hide Pow2, Scaled;
    sft := 32;
    tmp := 0;
    while sft > 0
      invariant sft <= 32
      invariant forall s :: sft < s <= 32 ==> Multiplier(from, to, s) >= Pow2(sftacc)
      invariant sft == 0 ==> tmp == Multiplier(from, to, 1)
    {
      var rem;
      ScaledFits(from, to, sft);
      tmp, rem := Div64.Div64By32(Scaled(from, to, sft), from);
      if tmp < Pow2(sftacc) {
        break;
      }
      sft := sft - 1;
    }
  }

  /**
   * If a shift fits, the pair is accurate and converts the whole range within 64 bits; a larger shift
   * has too many bits for the search, and would not keep the range within 63. It is the largest
   * shift that converts exactly when the next one does not. If no shift fits, the multiplier of
   * shift 1, cut to a word, comes with shift 0. Either way the pair is accurate exactly under a
   * condition on the arguments.
   */
  method CalcMultShift(from: nat, to: nat, maxsec: nat) returns (mult: nat, shift: nat)
    requires 0 < from < WORD && to < WORD && maxsec < WORD
    ensures mult < WORD && shift <= 32 && (shift > 0 <==> Fits(from, to, maxsec))
    ensures Fits(from, to, maxsec) ==>
              && mult == Multiplier(from, to, shift) && Converts(from, to, maxsec, shift)
              && TooLargeAbove(from, to, maxsec, shift) && NoneAbove(from, to, maxsec, shift)
    ensures LargestConverting(from, to, maxsec, shift) <==> shift == 32 || !Converts(from, to, maxsec, shift + 1)
    ensures maxsec * from < WORD ==> LargestConverting(from, to, maxsec, shift)
    ensures Accurate(from, to, mult, shift) <==> Fits(from, to, maxsec) || NearlyOne(from, to)
  {
    hide Pow2, Scaled, Multiplier, Fits, NoneAbove, Accurate, NearlyOne, LargestConverting, Converts, Bits;
    var range := maxsec * from;
    RangeFits(maxsec, from);
    RangeBounds(range);
    var sftacc := LimitingShift(range);
    var tmp;
    tmp, shift := Search(from, to, sftacc);
    mult := tmp % WORD;
    OutcomeOf(from, to, maxsec, tmp, shift);
    LargestIff(from, to, maxsec, shift);
    ShortRange(from, to, maxsec, shift);
  }

  lemma RangeFits(maxsec: nat, from: nat)
    requires maxsec < WORD && from < WORD
    ensures maxsec * from < DOUBLE_WORD
  {
    MulMono(maxsec, WORD - 1, from);
  }

  /** What the search finds, as the result promises it. */
  lemma OutcomeOf(from: nat, to: nat, maxsec: nat, tmp: nat, sft: nat)
    requires 0 < from < WORD && to < WORD && maxsec * from < DOUBLE_WORD && sft <= 32
    requires Bits(maxsec * from) >= 0
    requires forall s :: sft < s <= 32 ==> Multiplier(from, to, s) >= Pow2(Bits(maxsec * from))
    requires sft > 0 ==> tmp == Multiplier(from, to, sft) < Pow2(Bits(maxsec * from))
    requires sft == 0 ==> tmp == Multiplier(from, to, 1)
    ensures sft > 0 <==> Fits(from, to, maxsec)
    ensures sft > 0 ==> tmp < WORD && Converts(from, to, maxsec, sft) && NoneAbove(from, to, maxsec, sft)
    ensures Accurate(from, to, tmp % WORD, sft) <==> Fits(from, to, maxsec) || NearlyOne(from, to)
  {
    hide Pow2, Scaled, Multiplier, Accurate, NearlyOne, NoneAbove, Bits;
    var acc := Bits(maxsec * from);
    MultiplierBelow(from, to, 1, Pow2(acc));
    if sft > 0 {
      MultiplierGrows(from, to, 1, sft);
      KeepsRange(maxsec * from, tmp);
      Largest(from, to, maxsec, sft);
      MultiplierAccurate(from, to, sft);
    } else {
      assert Multiplier(from, to, 1) >= Pow2(acc);
      FallThrough(from, to);
    }
  }

  lemma KeepsRange(range: nat, mult: nat)
    requires range < DOUBLE_WORD && 0 <= Bits(range) && mult < Pow2(Bits(range))
    ensures mult < WORD && range * mult < DOUBLE_WORD
  {
    hide Pow2, Bits;
    RangeBounds(range);
    Words();
    PowMonotone(Bits(range), 32);
    MulMono(mult, Pow2(Bits(range)), range);
  }

  /** Converting is monotone in the shift, so the next shift decides. */
  lemma LargestIff(from: nat, to: nat, maxsec: nat, shift: nat)
    requires from > 0 && shift <= 32
    ensures LargestConverting(from, to, maxsec, shift) <==> shift == 32 || !Converts(from, to, maxsec, shift + 1)
  {
    hide Multiplier;
    if shift < 32 && !Converts(from, to, maxsec, shift + 1) {
      forall s | shift < s <= 32 ensures !Converts(from, to, maxsec, s) {
        MultiplierGrows(from, to, shift + 1, s);
        MulMono(Multiplier(from, to, shift + 1), Multiplier(from, to, s), maxsec * from);
      }
    }
  }

  /** A range of one word leaves a whole word for the multiplier. */
  lemma ShortRange(from: nat, to: nat, maxsec: nat, shift: nat)
    requires from > 0 && TooLargeAbove(from, to, maxsec, shift)
    ensures maxsec * from < WORD ==> LargestConverting(from, to, maxsec, shift)
  {
    hide Pow2, Multiplier;
    Words();
    assert maxsec * from < WORD ==> Bits(maxsec * from) == 32;
  }

  /** In general a larger shift may convert: here shift 32, while the search stops at 31. */
  lemma LargerConverts()
    ensures var from, to, maxsec := 0x1_0000, 0x8000, 0x1_0000;
            && Fits(from, to, maxsec) && Bits(maxsec * from) == 31
            && Multiplier(from, to, 31) < Pow2(31) <= Multiplier(from, to, 32)
            && Converts(from, to, maxsec, 32)
  {
    Words();
    var p := Pow2(31);
    assert 2 * p == WORD;
  }

  lemma Largest(from: nat, to: nat, maxsec: nat, sft: nat)
    requires from > 0 && maxsec * from < DOUBLE_WORD && Bits(maxsec * from) >= 0
    requires forall s :: sft < s <= 32 ==> Multiplier(from, to, s) >= Pow2(Bits(maxsec * from))
    ensures NoneAbove(from, to, maxsec, sft)
  {
    hide Pow2, Bits, Multiplier;
    var range := maxsec * from;
    RangeBounds(range);
    Words();
    forall s | sft < s <= 32
      ensures Multiplier(from, to, s) >= WORD || range * Multiplier(from, to, s) >= DOUBLE_WORD / 2
    {
      MulMono(Pow2(Bits(range)), Multiplier(from, to, s), range);
    }
  }

  /** The multiplier of shift 1, cut to a word, suits shift 0 only if the frequencies are nearly the same. */
  lemma FallThrough(from: nat, to: nat)
    requires 0 < from < WORD && to < WORD && Multiplier(from, to, 1) > 0
    ensures Accurate(from, to, Multiplier(from, to, 1) % WORD, 0) <==> NearlyOne(from, to)
  {
    hide Pow2;
    Words();
    var m := Multiplier(from, to, 1);
    DivisionBounds(Scaled(from, to, 1), from);
    assert (m + 1) * from == m * from + from;
    if m < WORD {
      SuitsZero(from, to, m, m * from);
    } else {
      CutIsOff(from, to, m);
    }
  }

  lemma SuitsZero(from: nat, to: nat, m: nat, product: nat)
    requires 0 < from && 0 < m && product == m * from && product <= 2 * to + from / 2 < product + from
    ensures -(from / 2) <= product - to <= from / 2 <==> NearlyOne(from, to)
  {
    if m == 1 {
      assert product == from;
    } else {
      MulMono(2, m, from);
    }
  }

  /** A multiplier that does not fit a word loses its top bit. */
  lemma CutIsOff(from: nat, to: nat, m: nat)
    requires 0 < from && to < WORD <= m && m * from <= 2 * to + from / 2
    ensures m % WORD * from - to < -(from / 2) && 2 * to + from / 2 >= 2 * from
  {
    MulMono(WORD, m, from);
    TopBit(from, to, m);
    var cut := m - WORD;
    assert cut * from == m * from - WORD * from;
  }

  lemma TopBit(from: nat, to: nat, m: nat)
    requires 0 < from && to < WORD <= m && m * from <= 2 * to + from / 2
    ensures m % WORD == m - WORD
  {
    if m >= 2 * WORD {
      MulMono(2 * WORD, m, from);
    }
    assert m < 2 * WORD;
  }

  /** A clock of one tick for 2^31 units gets multiplier 0, although its exact multiplier fits a word. */
  lemma FallThroughFails()
    ensures !Fits(1, 0x8000_0000, 1) && !NearlyOne(1, 0x8000_0000)
    ensures Multiplier(1, 0x8000_0000, 1) % WORD == 0 && Multiplier(1, 0x8000_0000, 0) == 0x8000_0000
  {
    Words();
  }
}

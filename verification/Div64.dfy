/** 64-bit division on a machine that divides 32-bit words. */
module Div64 {
  import opened Powers

  const WORD: nat := 0x1_0000_0000
  const DOUBLE_WORD: nat := 0x1_0000_0000_0000_0000

  // ----- __div64_32 -----

  /** Halving the scaled divisor undoes the last doubling. */
  lemma Halve(base: nat, k: nat)
    ensures k > 0 ==> Pow2(k) / 2 == Pow2(k - 1) && base * Pow2(k) / 2 == base * Pow2(k - 1)
    ensures k > 0 ==> 2 * (base * Pow2(k) / 2) == base * Pow2(k)
    ensures k == 0 ==> Pow2(k) == 1 && base * Pow2(k) == base
  {
    if k > 0 {
      assert base * Pow2(k) == base * Pow2(k - 1) * 2;
    }
  }

  /** The reduction of the high word: what is left to divide is smaller by a known multiple. */
  method ReduceHigh(n: nat, base: nat) returns (res: nat, rem: nat)
    requires n < DOUBLE_WORD && 0 < base < WORD
    ensures n == res * base + rem && rem < DOUBLE_WORD && res < DOUBLE_WORD
  {
    res, rem := 0, n;
    var high := n / WORD;
    if high >= base {
      ghost var was := high;
      high := high / base;
      assert high * base <= was < WORD;
      res := high * WORD;
      assert high * base * WORD <= n;
      rem := n - high * base * WORD;
      assert high * base * WORD == high * WORD * base;
    }
  }

  /** Doubles the divisor until it passes the dividend or fills the word; the doubling never overflows. */
  method Scale(rem: nat, base: nat) returns (b: nat, d: nat, ghost k: nat)
    requires rem < DOUBLE_WORD && 0 < base < WORD
    ensures b == base * d < DOUBLE_WORD && d == Pow2(k) && rem < 2 * b
  {
    b, d, k := base, 1, 0;
    while b < DOUBLE_WORD / 2 && b < rem
      invariant 0 < b == base * d < DOUBLE_WORD && d == Pow2(k)
      decreases DOUBLE_WORD - b
    {
      b := b + b;
      d := d + d;
      k := k + 1;
    }
  }

  /** Shift-and-subtract: exact quotient and remainder, and no intermediate value leaves 64 bits. */
  method Div64By32(n: nat, base: nat) returns (res: nat, rem: nat)
    requires n < DOUBLE_WORD && 0 < base < WORD
    ensures res == n / base && rem == n % base
  {
    hide Pow2;
    var b: nat, d: nat;
    ghost var k: nat;
    res, rem := ReduceHigh(n, base);
    b, d, k := Scale(rem, base);
    while d > 0
      invariant d > 0 ==> d == Pow2(k) && b == base * d && rem < 2 * b
      invariant d == 0 ==> rem < base
      invariant n == res * base + rem
      decreases d
    {
      Halve(base, k);
      if rem >= b {
        assert (res + d) * base == res * base + b;
        rem := rem - b;
        res := res + d;
      }
      b := b / 2;
      d := d / 2;
      k := if k > 0 then k - 1 else 0;
    }
    DivisionIs(n, base, res, rem);
  }

  // ----- div64_u64 -----

  function ShiftRight(x: nat, k: nat): nat {
    Quotient(x, Pow2(k))
  }

  /** The shift that makes the divisor fit a word. */
  function Shift(divisor: nat): nat {
    1 + Fls(divisor / WORD)
  }

  /** The part of the divisor that the shift drops, and the rest. */
  function Dropped(divisor: nat): nat {
    divisor % Pow2(Shift(divisor))
  }

  function Rounded(divisor: nat): nat {
    divisor - Dropped(divisor)
  }

  /** A divisor of more than one word keeps between 30 and 31 leading bits. */
  lemma ShiftBounds(divisor: nat) returns (p: nat)
    requires divisor >= WORD
    ensures p > 0 && Pow2(Shift(divisor)) == 4 * p && WORD * p <= divisor < 2 * WORD * p
  {
    var high := divisor / WORD;
    var f := Fls(high);
    p := Pow2(f - 1);
    assert Pow2(f + 1) == 4 * p;
    assert WORD * p <= WORD * high <= divisor < WORD * (high + 1) <= WORD * Pow2(f);
  }

  lemma DivBounds(n: nat, lo: nat, hi: nat, p: nat)
    requires p > 0 && lo * p <= n < hi * p
    ensures lo <= n / p < hi
  {
    DivisionBounds(n, p);
    CancelLess(lo, n / p + 1, p);
    CancelLess(n / p, hi, p);
  }

  lemma ShiftedFits(divisor: nat)
    requires divisor >= WORD
    ensures 0 < ShiftRight(divisor, Shift(divisor)) < WORD
  {
    hide Pow2, Shift;
    var p := ShiftBounds(divisor);
    assert 1 * (4 * p) <= WORD * p && 2 * WORD * p <= WORD * (4 * p);
    DivBounds(divisor, 1, WORD, 4 * p);
  }

  /** The quotient estimated through the leading bits of the divisor. */
  function Estimate(dividend: nat, divisor: nat): nat
    requires divisor >= WORD
  {
    var n := Shift(divisor);
    ShiftedFits(divisor);
    ShiftRight(dividend, n) / ShiftRight(divisor, n)
  }

  /** A divisor of more than one word is estimated, and the estimate corrected by one. */
  function Div64(dividend: nat, divisor: nat): nat
    requires divisor > 0
  {
    if divisor < WORD then dividend / divisor
    else Correct(dividend, divisor, Estimate(dividend, divisor))
  }

  /** The correction of an estimate; the subtraction wraps. */
  function Correct(n: nat, d: nat, quot: nat): nat {
    var q := if quot != 0 then quot - 1 else quot;
    if (n - q * d) % DOUBLE_WORD >= d then q + 1 else q
  }

  method Div64ByU64(dividend: nat, divisor: nat) returns (quot: nat)
    requires dividend < DOUBLE_WORD && 0 < divisor < DOUBLE_WORD
    ensures quot == Div64(dividend, divisor)
    ensures Exact(divisor) ==> quot == dividend / divisor
  {
    hide Pow2, Shift;
    if divisor >= WORD && Exact(divisor) {
      ExactAgrees(dividend, divisor);
    }
    var rem;
    var high := divisor / WORD;
    if high == 0 {
      quot, rem := Div64By32(dividend, divisor);
    } else {
      ShiftedFits(divisor);
      var n := Shift(divisor);
      quot, rem := Div64By32(ShiftRight(dividend, n), ShiftRight(divisor, n));
      if quot != 0 {
        quot := quot - 1;
      }
      if (dividend - quot * divisor) % DOUBLE_WORD >= divisor {
        quot := quot + 1;
      }
    }
  }

  /** The estimate before correction is the dividend divided by the rounded divisor. */
  lemma EstimateIs(dividend: nat, divisor: nat)
    requires divisor >= WORD
    ensures 0 < Rounded(divisor) <= divisor
    ensures Estimate(dividend, divisor) == dividend / Rounded(divisor)
  {
    hide Pow2, Shift;
    ShiftedFits(divisor);
    var p := Pow2(Shift(divisor));
    var v := divisor / p;
    assert Rounded(divisor) == v * p;
    DivDiv(dividend, p, v);
  }

  lemma QuotientMonotone(n: nat, w: nat, d: nat)
    requires 0 < w <= d
    ensures n / w >= n / d
  {
    DivisionBounds(n, d);
    DivisionBounds(n, w);
    QuotientsOrdered(n, w, d, n / d, n / w);
  }

  lemma QuotientsOrdered(n: nat, w: nat, d: nat, q: nat, k: nat)
    requires w <= d && q * d <= n < (k + 1) * w
    ensures q <= k
  {
    MulMono(w, d, q);
    CancelLess(q, k + 1, w);
  }

  /** The estimate is never below the quotient, and the result is right exactly when it is at most one above. */
  lemma CorrectionWorksIff(dividend: nat, divisor: nat)
    requires dividend < DOUBLE_WORD && WORD <= divisor < DOUBLE_WORD
    ensures dividend / Rounded(divisor) >= dividend / divisor
    ensures Div64(dividend, divisor) == dividend / divisor
            <==> dividend / Rounded(divisor) <= dividend / divisor + 1
  {
    hide Pow2, Shift, Dropped;
    EstimateIs(dividend, divisor);
    var w, q := Rounded(divisor), dividend / divisor;
    QuotientMonotone(dividend, w, divisor);
    var quot := dividend / w;
    Corrected(dividend, divisor, quot);
  }

  /** The correction takes one off, and puts it back when a whole divisor is left. */
  lemma Corrected(n: nat, d: nat, quot: nat)
    requires 0 < d && n < DOUBLE_WORD && quot >= n / d
    ensures Correct(n, d, quot) == n / d <==> quot <= n / d + 1
  {
    DivisionBounds(n, d);
    CorrectedAt(n, d, quot, n / d);
  }

  lemma CorrectedAt(n: nat, d: nat, quot: nat, exact: nat)
    requires exact * d <= n < (exact + 1) * d && n < DOUBLE_WORD && quot >= exact
    ensures Correct(n, d, quot) == exact <==> quot <= exact + 1
  {
    assert (exact - 1) * d == exact * d - d;
    assert (exact + 1) * d == exact * d + d;
    if quot <= exact + 1 {
      var left := n - (if quot != 0 then quot - 1 else quot) * d;
      assert 0 <= left < DOUBLE_WORD;
    }
  }

  // ----- for which divisors it is right for every dividend -----

  /** A condition on the divisor alone. */
  predicate Exact(divisor: nat) {
    divisor < WORD
    || (Rounded(divisor) > 0 && (DOUBLE_WORD - 1) / Rounded(divisor) * Dropped(divisor) <= divisor)
  }

  ghost predicate Agrees(dividend: nat, divisor: nat)
    requires divisor > 0
  {
    Div64(dividend, divisor) == dividend / divisor
  }

  /** An estimate is two too large only if its multiple of the dropped part exceeds the divisor. */
  lemma TooLargeOnlyIf(w: nat, r: nat, n: nat)
    requires w > 0 && n / w > n / (w + r) + 1
    ensures n / w * r > w + r
  {
    var d, k := w + r, n / w;
    DivisionBounds(n, d);
    DivisionBounds(n, w);
    MulMono(n / d + 1, k - 1, d);
    assert (k - 1) * d == k * w + k * r - d;
  }

  /** For a multiple of the rounded divisor, it is two too large if it does. */
  lemma TooLargeIf(w: nat, r: nat, k: nat)
    requires w > 0 && k * r > w + r
    ensures k * w / w == k && k > k * w / (w + r) + 1
  {
    var d, n := w + r, k * w;
    DivisionIs(n, w, k, 0);
    DivisionBounds(n, d);
    assert (k - 1) * d == k * w + k * r - d;
    CancelLess(n / d, k - 1, d);
  }

  /** div64_u64 is the exact quotient for every dividend if and only if the divisor meets the condition. */
  lemma ExactIff(divisor: nat)
    requires 0 < divisor < DOUBLE_WORD
    ensures Exact(divisor) <==> forall n :: 0 <= n < DOUBLE_WORD ==> Agrees(n, divisor)
  {
    if divisor >= WORD {
      hide Pow2, Shift, Dropped, Div64;
      EstimateIs(0, divisor);
      if Exact(divisor) {
        forall n | 0 <= n < DOUBLE_WORD ensures Agrees(n, divisor) {
          ExactAgrees(n, divisor);
        }
      } else {
        var n := InexactFails(divisor);
        assert !Agrees(n, divisor);
      }
    }
  }

  lemma ExactAgrees(n: nat, divisor: nat)
    requires WORD <= divisor < DOUBLE_WORD && n < DOUBLE_WORD && Exact(divisor)
    ensures Agrees(n, divisor)
  {
    hide Pow2, Shift, Dropped, Div64;
    var w, r := Rounded(divisor), Dropped(divisor);
    CorrectionWorksIff(n, divisor);
    if n / w > n / divisor + 1 {
      TooLargeOnlyIf(w, r, n);
      EstimateBound(n, w, r);
    }
  }

  lemma InexactFails(divisor: nat) returns (n: nat)
    requires WORD <= divisor < DOUBLE_WORD && !Exact(divisor)
    ensures n < DOUBLE_WORD && !Agrees(n, divisor)
  {
    hide Pow2, Shift, Dropped, Div64;
    EstimateIs(0, divisor);
    var w, r := Rounded(divisor), Dropped(divisor);
    var k := (DOUBLE_WORD - 1) / w;
    n := k * w;
    DivisionBounds(DOUBLE_WORD - 1, w);
    TooLargeIf(w, r, k);
    CorrectionWorksIff(n, divisor);
  }

  lemma EstimateBound(n: nat, w: nat, r: nat)
    requires w > 0 && n < DOUBLE_WORD
    ensures n / w * r <= (DOUBLE_WORD - 1) / w * r
  {
    DivisionBounds(n, w);
    DivisionBounds(DOUBLE_WORD - 1, w);
    CancelLess(n / w, (DOUBLE_WORD - 1) / w + 1, w);
    MulMono(n / w, (DOUBLE_WORD - 1) / w, r);
  }

  /** From 2^34 on every divisor meets it. */
  lemma LargeDivisorsExact(divisor: nat)
    requires 4 * WORD <= divisor < DOUBLE_WORD
    ensures Exact(divisor)
  {
    hide Pow2, Shift;
    EstimateIs(0, divisor);
    var p := ShiftBounds(divisor);
    var w, r := Rounded(divisor), Dropped(divisor);
    var top := (DOUBLE_WORD - 1) / w;
    MultipleBelow(divisor, p);
    DivisionBounds(DOUBLE_WORD - 1, w);
    LeftOver(top, w, r, p);
  }

  /** Rounding down to a multiple of 4p does not go below a smaller such multiple. */
  lemma MultipleBelow(divisor: nat, p: nat)
    requires p > 0 && WORD * p <= divisor
    ensures divisor - divisor % (4 * p) >= WORD * p
  {
    DivisionBounds(divisor, 4 * p);
    assert 0x4000_0000 * (4 * p) == WORD * p;
    CancelLess(0x4000_0000, divisor / (4 * p) + 1, 4 * p);
    MulMono(0x4000_0000, divisor / (4 * p), 4 * p);
    assert divisor == 4 * p * (divisor / (4 * p)) + divisor % (4 * p);
  }

  lemma LeftOver(top: nat, w: nat, r: nat, p: nat)
    requires r < 4 * p && WORD * p <= w && top * w < DOUBLE_WORD
    ensures top * r <= 4 * WORD
  {
    assert top * r <= top * (4 * p);
    assert top * (WORD * p) <= top * w;
    assert top * (WORD * p) == WORD * (top * p);
    assert top * p < WORD;
  }

  /** Below that it can fail: the quotient of 2^64 - 1 by 2^32 + 3 comes out two too large. */
  lemma SmallDivisorFails()
    ensures Div64(DOUBLE_WORD - 1, WORD + 3) == WORD - 1 && (DOUBLE_WORD - 1) / (WORD + 3) == WORD - 3
  {
    assert Shift(WORD + 3) == 2 by {
      assert Fls(1) == 1;
    }
    assert Pow2(2) == 4;
    assert Estimate(DOUBLE_WORD - 1, WORD + 3) == WORD - 1;
  }
}

/** Scans of a bitmap, a word at a time, against the scan bit by bit. */
module BitScan {
  import opened Powers

  /** BITS_PER_LONG. */
  const WIDTH: nat := 32

  function Ones(n: nat): nat {
    Pow2(n) - 1
  }

  // ----- words -----

  predicate Bit(w: nat, i: nat) {
    if i == 0 then w % 2 == 1 else Bit(w / 2, i - 1)
  }

  /** The operators on words of `n` bits. */
  function And(a: nat, b: nat, n: nat): (r: nat)
    ensures r < Pow2(n)
  {
    if n == 0 then 0 else (if a % 2 == 1 && b % 2 == 1 then 1 else 0) + 2 * And(a / 2, b / 2, n - 1)
  }

  function Or(a: nat, b: nat, n: nat): (r: nat)
    ensures r < Pow2(n)
  {
    if n == 0 then 0 else (if a % 2 == 1 || b % 2 == 1 then 1 else 0) + 2 * Or(a / 2, b / 2, n - 1)
  }

  function Not(a: nat, n: nat): (r: nat)
    ensures r < Pow2(n)
  {
    if n == 0 then 0 else (1 - a % 2) + 2 * Not(a / 2, n - 1)
  }

  function ShiftLeft(a: nat, k: nat): nat {
    Remainder(a * Pow2(k), Pow2(WIDTH))
  }

  function ShiftRight(a: nat, k: nat): nat {
    Quotient(a, Pow2(k))
  }

  lemma {:induction false} OperatorBits(a: nat, b: nat, n: nat, i: nat)
    requires i < n
    ensures Bit(And(a, b, n), i) <==> Bit(a, i) && Bit(b, i)
    ensures Bit(Or(a, b, n), i) <==> Bit(a, i) || Bit(b, i)
    ensures Bit(Not(a, n), i) <==> !Bit(a, i)
  {
    if i > 0 {
      OperatorBits(a / 2, b / 2, n - 1, i - 1);
    }
  }

  /** The bits of 2^n - 2^k are those from `k` on. */
  lemma {:induction false} RunBits(n: nat, k: nat, i: nat)
    requires k <= n
    ensures Pow2(k) <= Pow2(n) && (Bit(Pow2(n) - Pow2(k), i) <==> k <= i < n)
  {
    if n == 0 {
      NoBits(i);
    } else {
      RunBits(n - 1, if k == 0 then 0 else k - 1, if i == 0 then 0 else i - 1);
    }
  }

  lemma {:induction false} NoBits(i: nat)
    ensures !Bit(0, i)
  {
    if i > 0 {
      NoBits(i - 1);
    }
  }

  /** ~0UL << k. */
  lemma HighMask(k: nat, i: nat)
    requires k <= WIDTH && i < WIDTH
    ensures Bit(ShiftLeft(Ones(WIDTH), k), i) <==> k <= i
  {
    hide Pow2, Bit;
    RunBits(WIDTH, k, i);
    var p, w := Pow2(k), Pow2(WIDTH);
    assert (w - 1) * p == (p - 1) * w + (w - p);
    DivisionIs((w - 1) * p, w, p - 1, w - p);
  }

  /** ~0UL >> (WIDTH - k). */
  lemma LowMask(k: nat, i: nat)
    requires k <= WIDTH
    ensures Bit(ShiftRight(Ones(WIDTH), WIDTH - k), i) <==> i < k
  {
    hide Pow2, Bit;
    RunBits(k, 0, i);
    PowZero();
    var p, q := Pow2(WIDTH - k), Pow2(k);
    Pow2Adds(WIDTH - k, k);
    assert (q - 1) * p + (p - 1) == q * p - 1;
    DivisionIs(Pow2(WIDTH) - 1, p, q - 1, p - 1);
  }

  lemma PowZero()
    ensures Pow2(0) == 1
  {
  }

  /** __ffs: the lowest bit set. */
  function Ffs(w: nat): nat
    requires w > 0
  {
    if w % 2 == 1 then 0 else 1 + Ffs(w / 2)
  }

  lemma {:induction false} FfsIsLowest(w: nat, n: nat)
    requires 0 < w < Pow2(n)
    ensures Ffs(w) < n && Bit(w, Ffs(w)) && forall i :: 0 <= i < Ffs(w) ==> !Bit(w, i)
  {
    if w % 2 == 0 {
      FfsIsLowest(w / 2, n - 1);
    }
  }

  /** __fls: the highest bit set. */
  lemma {:induction false} FlsIsHighest(w: nat, i: nat)
    requires w > 0
    ensures Bit(w, Fls(w) - 1) && (i >= Fls(w) ==> !Bit(w, i))
  {
    if w == 1 {
      if i > 0 {
        NoBits(i - 1);
      }
    } else {
      FlsIsHighest(w / 2, if i == 0 then 0 else i - 1);
    }
  }

  // ----- bitmaps -----

  predicate BitAt(addr: seq<nat>, i: nat)
    requires i < WIDTH * |addr|
  {
    Bit(addr[i / WIDTH], i % WIDTH)
  }

  /** No bit in [from, to) has the value sought. */
  ghost predicate None(addr: seq<nat>, value: bool, from: nat, to: nat)
    requires to <= WIDTH * |addr|
  {
    forall i :: from <= i < to ==> BitAt(addr, i) != value
  }

  /** The scan bit by bit. */
  function Scan(addr: seq<nat>, value: bool, size: nat, offset: nat): (r: nat)
    requires size <= WIDTH * |addr|
    decreases size - offset
  {
    if offset >= size then size
    else if BitAt(addr, offset) == value then offset
    else Scan(addr, value, size, offset + 1)
  }

  /** It returns the first bit of that value, and the size exactly when there is none. */
  lemma {:induction false} ScanFinds(addr: seq<nat>, value: bool, size: nat, offset: nat)
    requires offset <= size <= WIDTH * |addr|
    ensures var r := Scan(addr, value, size, offset);
            && offset <= r <= size && None(addr, value, offset, r)
            && (r < size ==> BitAt(addr, r) == value)
            && (r == size <==> None(addr, value, offset, size))
    decreases size - offset
  {
    if offset < size && BitAt(addr, offset) != value {
      ScanFinds(addr, value, size, offset + 1);
    }
  }

  lemma {:induction false} ScanIs(addr: seq<nat>, value: bool, size: nat, offset: nat, r: nat)
    requires offset <= r <= size <= WIDTH * |addr|
    requires None(addr, value, offset, r) && (r < size ==> BitAt(addr, r) == value)
    ensures Scan(addr, value, size, offset) == r
    decreases size - offset
  {
    if offset < r {
      assert BitAt(addr, offset) != value;
      ScanIs(addr, value, size, offset + 1, r);
    }
  }

  /** `w` has a bit exactly where word `p` of the bitmap has the value sought within [lo, hi). */
  ghost predicate Masks(w: nat, addr: seq<nat>, value: bool, p: nat, lo: nat, hi: nat)
    requires p < |addr|
  {
    && w < Pow2(WIDTH)
    && forall i :: 0 <= i < WIDTH ==> (Bit(w, i) <==> lo <= i < hi && Bit(addr[p], i) == value)
  }

  lemma InWord(addr: seq<nat>, p: nat, i: nat)
    requires p < |addr| && i < WIDTH
    ensures WIDTH * p + i < WIDTH * |addr| && BitAt(addr, WIDTH * p + i) == Bit(addr[p], i)
  {
  }

  /** A masked word that is zero rules its range out; otherwise its lowest bit is the first one there. */
  lemma WordDecides(w: nat, addr: seq<nat>, value: bool, p: nat, lo: nat, hi: nat)
    requires p < |addr| && hi <= WIDTH && Masks(w, addr, value, p, lo, hi)
    ensures WIDTH * p + hi <= WIDTH * |addr|
    ensures w == 0 ==> None(addr, value, WIDTH * p + lo, WIDTH * p + hi)
    ensures w != 0 ==> lo <= Ffs(w) < hi && None(addr, value, WIDTH * p + lo, WIDTH * p + Ffs(w))
                       && BitAt(addr, WIDTH * p + Ffs(w)) == value
  {
    hide Pow2, Bit, BitAt, Ffs;
    if w != 0 {
      FfsIsLowest(w, WIDTH);
      InWord(addr, p, Ffs(w));
    }
    var end := if w == 0 then hi else Ffs(w);
    forall i | WIDTH * p + lo <= i < WIDTH * p + end ensures i < WIDTH * |addr| && BitAt(addr, i) != value {
      InWord(addr, p, i - WIDTH * p);
      if w == 0 {
        NoBits(i - WIDTH * p);
      }
    }
  }

  ghost predicate Bitmap(addr: seq<nat>) {
    forall i :: 0 <= i < |addr| ==> addr[i] < Pow2(WIDTH)
  }

  /** The words the scan for a set bit looks at: whole, from `k` on, and below `k`. */
  lemma SetMasks(addr: seq<nat>, p: nat, k: nat, w: nat, lo: nat)
    requires Bitmap(addr) && p < |addr| && k <= WIDTH
    ensures Masks(addr[p], addr, true, p, 0, WIDTH)
    ensures Masks(And(addr[p], ShiftLeft(Ones(WIDTH), k), WIDTH), addr, true, p, k, WIDTH)
    ensures Masks(w, addr, true, p, lo, WIDTH) ==>
              Masks(And(w, ShiftRight(Ones(WIDTH), WIDTH - k), WIDTH), addr, true, p, lo, k)
  {
    hide Pow2, Bit, And, ShiftLeft, ShiftRight;
    var low, high := ShiftRight(Ones(WIDTH), WIDTH - k), ShiftLeft(Ones(WIDTH), k);
    forall i | 0 <= i < WIDTH ensures Bit(And(addr[p], high, WIDTH), i) <==> k <= i && Bit(addr[p], i) {
      HighMask(k, i);
      OperatorBits(addr[p], high, WIDTH, i);
    }
    forall i | 0 <= i < WIDTH ensures Bit(And(w, low, WIDTH), i) <==> i < k && Bit(w, i) {
      LowMask(k, i);
      OperatorBits(w, low, WIDTH, i);
    }
  }

  /** The same for a clear bit, whose words are looked at complemented. */
  lemma ClearMasks(addr: seq<nat>, p: nat, k: nat, w: nat, lo: nat)
    requires Bitmap(addr) && p < |addr| && k <= WIDTH
    ensures Masks(Not(addr[p], WIDTH), addr, false, p, 0, WIDTH)
    ensures Masks(Not(Or(addr[p], ShiftRight(Ones(WIDTH), WIDTH - k), WIDTH), WIDTH), addr, false, p, k, WIDTH)
    ensures Masks(Not(w, WIDTH), addr, false, p, lo, WIDTH) ==>
              Masks(Not(Or(w, ShiftLeft(Ones(WIDTH), k), WIDTH), WIDTH), addr, false, p, lo, k)
  {
    hide Pow2, Bit, Or, Not, ShiftLeft, ShiftRight;
    var low, high := ShiftRight(Ones(WIDTH), WIDTH - k), ShiftLeft(Ones(WIDTH), k);
    forall i | 0 <= i < WIDTH
      ensures Bit(Not(addr[p], WIDTH), i) <==> !Bit(addr[p], i)
      ensures Bit(Not(Or(addr[p], low, WIDTH), WIDTH), i) <==> k <= i && !Bit(addr[p], i)
      ensures Bit(Not(w, WIDTH), i) <==> !Bit(w, i)
      ensures Bit(Not(Or(w, high, WIDTH), WIDTH), i) <==> i < k && !Bit(w, i)
    {
      HighMask(k, i);
      LowMask(k, i);
      OperatorBits(addr[p], low, WIDTH, i);
      OperatorBits(Or(addr[p], low, WIDTH), 0, WIDTH, i);
      OperatorBits(w, high, WIDTH, i);
      OperatorBits(Or(w, high, WIDTH), 0, WIDTH, i);
    }
  }

  /** A word is all ones exactly when its complement is zero. */
  lemma {:induction false} FullWord(w: nat, n: nat)
    requires w < Pow2(n)
    ensures w == Ones(n) <==> Not(w, n) == 0
  {
    if n > 0 {
      FullWord(w / 2, n - 1);
    }
  }

  // ----- the scans -----

  /** What the scans keep: everything before the word at hand has been ruled out. */
  ghost predicate Searched(addr: seq<nat>, value: bool, total: nat, offset: nat, p: nat, result: nat, size: nat) {
    && result == WIDTH * p && result + size == total <= WIDTH * |addr|
    && offset <= result && None(addr, value, offset, result)
  }

  lemma SearchedNext(addr: seq<nat>, value: bool, total: nat, offset: nat, p: nat, lo: nat, size: nat)
    requires WIDTH * p + size == total <= WIDTH * |addr| && size >= WIDTH && lo <= WIDTH
    requires offset == WIDTH * p + lo || (lo == 0 && Searched(addr, value, total, offset, p, WIDTH * p, size))
    requires None(addr, value, WIDTH * p + lo, WIDTH * (p + 1))
    ensures Searched(addr, value, total, offset, p + 1, WIDTH * (p + 1), size - WIDTH)
  {
  }

  /** What has been ruled out and what was found make the result of the scan bit by bit. */
  lemma Answer(addr: seq<nat>, value: bool, total: nat, offset: nat, start: nat, r: nat)
    requires offset <= start <= r <= total <= WIDTH * |addr|
    requires None(addr, value, offset, start) && None(addr, value, start, r)
    requires r < total ==> BitAt(addr, r) == value
    ensures Scan(addr, value, total, offset) == r
  {
    ScanIs(addr, value, total, offset, r);
  }

  /** The last word, of which only the first `size` bits count. */
  method LastSet(addr: seq<nat>, p: nat, w: nat, size: nat, ghost lo: nat, ghost total: nat, ghost offset: nat)
    returns (r: nat)
    requires Bitmap(addr) && p < |addr| && Masks(w, addr, true, p, lo, WIDTH) && lo < size < WIDTH
    requires total == WIDTH * p + size && offset <= WIDTH * p + lo && None(addr, true, offset, WIDTH * p + lo)
    ensures r == Scan(addr, true, total, offset)
  {
    hide Pow2, Bit, BitAt, And, ShiftRight, Masks, Ffs, None, Scan;
    SetMasks(addr, p, size, w, lo);
    var tmp := And(w, ShiftRight(Ones(WIDTH), WIDTH - size), WIDTH);
    WordDecides(tmp, addr, true, p, lo, size);
    r := if tmp == 0 then WIDTH * p + size else WIDTH * p + Ffs(tmp);
    Answer(addr, true, total, offset, WIDTH * p + lo, r);
  }

  method FindNextBit(addr: seq<nat>, total: nat, offset: nat) returns (r: nat)
    requires Bitmap(addr) && total <= WIDTH * |addr|
    ensures r == Scan(addr, true, total, offset)
  {
    hide Pow2, Bit, BitAt, And, ShiftRight, ShiftLeft, Masks, Ffs, None, Bitmap;
    if offset >= total {
      return total;
    }
    hide Scan;
    var p: nat, result: nat := offset / WIDTH, offset - offset % WIDTH;
    var size: nat, k, tmp := total - result, offset % WIDTH, 0;
    NothingSought(addr, true, offset);
    if k != 0 {
      SetMasks(addr, p, k, 0, 0);
      tmp := And(addr[p], ShiftLeft(Ones(WIDTH), k), WIDTH);
      if size < WIDTH {
        r := LastSet(addr, p, tmp, size, k, total, offset);
        return;
      }
      WordDecides(tmp, addr, true, p, k, WIDTH);
      if tmp != 0 {
        r := result + Ffs(tmp);
        Answer(addr, true, total, offset, offset, r);
        return;
      }
      SearchedNext(addr, true, total, offset, p, k, size);
      p, size, result := p + 1, size - WIDTH, result + WIDTH;
    }
    while size >= WIDTH
      invariant Searched(addr, true, total, offset, p, result, size)
    {
      SetMasks(addr, p, 0, 0, 0);
      WordDecides(addr[p], addr, true, p, 0, WIDTH);
      tmp := addr[p];
      if tmp != 0 {
        r := result + Ffs(tmp);
        Answer(addr, true, total, offset, result, r);
        return;
      }
      SearchedNext(addr, true, total, offset, p, 0, size);
      p, size, result := p + 1, size - WIDTH, result + WIDTH;
    }
    if size == 0 {
      NothingSought(addr, true, result);
      Answer(addr, true, total, offset, result, result);
      return result;
    }
    SetMasks(addr, p, 0, 0, 0);
    r := LastSet(addr, p, addr[p], size, 0, total, offset);
  }

  lemma NothingSought(addr: seq<nat>, value: bool, i: nat)
    requires i <= WIDTH * |addr|
    ensures None(addr, value, i, i)
  {
  }

  /** ffz: the lowest bit clear. */
  function Ffz(w: nat): nat
    requires Not(w, WIDTH) != 0
  {
    Ffs(Not(w, WIDTH))
  }

  method LastClear(addr: seq<nat>, p: nat, w: nat, size: nat, ghost lo: nat, ghost total: nat, ghost offset: nat)
    returns (r: nat)
    requires Bitmap(addr) && p < |addr| && Masks(Not(w, WIDTH), addr, false, p, lo, WIDTH) && lo < size < WIDTH
    requires total == WIDTH * p + size && offset <= WIDTH * p + lo && None(addr, false, offset, WIDTH * p + lo)
    ensures r == Scan(addr, false, total, offset)
  {
    hide Pow2, Bit, BitAt, Or, Not, ShiftLeft, Masks, Ffs, None, Scan;
    ClearMasks(addr, p, size, w, lo);
    var tmp := Or(w, ShiftLeft(Ones(WIDTH), size), WIDTH);
    FullWord(tmp, WIDTH);
    WordDecides(Not(tmp, WIDTH), addr, false, p, lo, size);
    r := if tmp == Ones(WIDTH) then WIDTH * p + size else WIDTH * p + Ffz(tmp);
    Answer(addr, false, total, offset, WIDTH * p + lo, r);
  }

  method FindNextZeroBit(addr: seq<nat>, total: nat, offset: nat) returns (r: nat)
    requires Bitmap(addr) && total <= WIDTH * |addr|
    ensures r == Scan(addr, false, total, offset)
  {
    hide Pow2, Bit, BitAt, Or, Not, ShiftRight, ShiftLeft, Masks, Ffs, None, Bitmap;
    if offset >= total {
      return total;
    }
    hide Scan;
    var p: nat, result: nat := offset / WIDTH, offset - offset % WIDTH;
    var size: nat, k, tmp := total - result, offset % WIDTH, 0;
    NothingSought(addr, false, offset);
    if k != 0 {
      ClearMasks(addr, p, k, 0, 0);
      tmp := Or(addr[p], ShiftRight(Ones(WIDTH), WIDTH - k), WIDTH);
      if size < WIDTH {
        r := LastClear(addr, p, tmp, size, k, total, offset);
        return;
      }
      WordDecides(Not(tmp, WIDTH), addr, false, p, k, WIDTH);
      if Not(tmp, WIDTH) != 0 {
        r := result + Ffz(tmp);
        Answer(addr, false, total, offset, offset, r);
        return;
      }
      SearchedNext(addr, false, total, offset, p, k, size);
      p, size, result := p + 1, size - WIDTH, result + WIDTH;
    }
    while size >= WIDTH
      invariant Searched(addr, false, total, offset, p, result, size)
    {
      ClearMasks(addr, p, 0, 0, 0);
      WordDecides(Not(addr[p], WIDTH), addr, false, p, 0, WIDTH);
      tmp := addr[p];
      if Not(tmp, WIDTH) != 0 {
        r := result + Ffz(tmp);
        Answer(addr, false, total, offset, result, r);
        return;
      }
      SearchedNext(addr, false, total, offset, p, 0, size);
      p, size, result := p + 1, size - WIDTH, result + WIDTH;
    }
    if size == 0 {
      NothingSought(addr, false, result);
      Answer(addr, false, total, offset, result, result);
      return result;
    }
    ClearMasks(addr, p, 0, 0, 0);
    r := LastClear(addr, p, addr[p], size, 0, total, offset);
  }

  // ----- the scan from the end -----

  /** The scan bit by bit from `i` down; `size` if there is no bit. */
  function ScanBack(addr: seq<nat>, size: nat, i: nat): nat
    requires i <= WIDTH * |addr|
  {
    if i == 0 then size
    else if BitAt(addr, i - 1) then i - 1
    else ScanBack(addr, size, i - 1)
  }

  /** It returns the last bit set before `i`, and the size exactly when there is none. */
  lemma {:induction false} ScanBackFinds(addr: seq<nat>, size: nat, i: nat)
    requires i <= size && i <= WIDTH * |addr|
    ensures var r := ScanBack(addr, size, i);
            && (r < i ==> BitAt(addr, r) && None(addr, true, r + 1, i))
            && (r >= i ==> r == size)
            && (r == size <==> None(addr, true, 0, i))
  {
    if i > 0 && !BitAt(addr, i - 1) {
      ScanBackFinds(addr, size, i - 1);
    }
  }

  lemma {:induction false} ScanBackSkips(addr: seq<nat>, size: nat, from: nat, i: nat)
    requires from <= i <= WIDTH * |addr| && None(addr, true, from, i)
    ensures ScanBack(addr, size, i) == ScanBack(addr, size, from)
    decreases i
  {
    if from < i {
      assert BitAt(addr, i - 1) != true;
      ScanBackSkips(addr, size, from, i - 1);
    }
  }

  /** A masked word that is zero rules its range out; otherwise its highest bit is the last one there. */
  lemma WordDecidesLast(w: nat, addr: seq<nat>, p: nat, hi: nat, size: nat)
    requires p < |addr| && hi <= WIDTH && Masks(w, addr, true, p, 0, hi)
    ensures WIDTH * p + hi <= WIDTH * |addr|
    ensures ScanBack(addr, size, WIDTH * p + hi) ==
            if w == 0 then ScanBack(addr, size, WIDTH * p) else WIDTH * p + (Fls(w) - 1)
  {
    hide Pow2, Bit, BitAt, ScanBack;
    if w == 0 {
      WordDecides(w, addr, true, p, 0, hi);
      ScanBackSkips(addr, size, WIDTH * p, WIDTH * p + hi);
    } else {
      var top := Fls(w) - 1;
      FlsFits(w);
      FlsIsHighest(w, top);
      InWord(addr, p, top);
      forall i | WIDTH * p + top + 1 <= i < WIDTH * p + hi ensures i < WIDTH * |addr| && !BitAt(addr, i) {
        InWord(addr, p, i - WIDTH * p);
        FlsIsHighest(w, i - WIDTH * p);
      }
      ScanBackSkips(addr, size, WIDTH * p + top + 1, WIDTH * p + hi);
      ScanBackStops(addr, size, WIDTH * p + top);
    }
  }

  lemma ScanBackStops(addr: seq<nat>, size: nat, i: nat)
    requires i < WIDTH * |addr| && BitAt(addr, i)
    ensures ScanBack(addr, size, i + 1) == i
  {
  }

  lemma {:induction false} FlsBelow(w: nat, n: nat)
    requires w < Pow2(n)
    ensures Fls(w) <= n
  {
    if w > 0 {
      FlsBelow(w / 2, n - 1);
    }
  }

  lemma FlsFits(w: nat)
    requires 0 < w < Pow2(WIDTH)
    ensures 0 < Fls(w) <= WIDTH
  {
    hide Pow2;
    FlsBelow(w, WIDTH);
  }

  method FindLastBit(addr: seq<nat>, size: nat) returns (r: nat)
    requires Bitmap(addr) && size <= WIDTH * |addr|
    ensures r == ScanBack(addr, size, size)
  {
    hide Pow2, Bit, BitAt, And, ShiftRight, Masks, Bitmap;
    var words: nat := size / WIDTH;
    var part := size % WIDTH;
    if part != 0 {
      SetMasks(addr, words, 0, addr[words], 0);
      SetMasks(addr, words, part, addr[words], 0);
      var tmp := And(addr[words], ShiftRight(Ones(WIDTH), WIDTH - part), WIDTH);
      WordDecidesLast(tmp, addr, words, part, size);
      if tmp != 0 {
        return WIDTH * words + (Fls(tmp) - 1);
      }
    }
    while words > 0
      invariant WIDTH * words <= size && ScanBack(addr, size, size) == ScanBack(addr, size, WIDTH * words)
    {
      words := words - 1;
      SetMasks(addr, words, 0, 0, 0);
      WordDecidesLast(addr[words], addr, words, WIDTH, size);
      if addr[words] != 0 {
        return WIDTH * words + (Fls(addr[words]) - 1);
      }
    }
    return size;
  }
}

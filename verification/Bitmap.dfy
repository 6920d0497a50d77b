/** Bitmaps in 64-bit words: setting and clearing ranges, searching, and finding room for an aligned area. */
module Bitmap {
  import opened Arith
  import opened Bits

  ghost predicate BitAt(m: seq<bv64>, i: nat)
    requires i < 64 * |m|
  {
    Bit(m[i / 64], i % 64)
  }

  // ----- ranges -----

  /** `m` is `m0` with bits `a..b` made `v`. */
  ghost predicate Changed(m: seq<bv64>, m0: seq<bv64>, a: nat, b: nat, v: bool) {
    |m| == |m0| && forall i: nat :: i < 64 * |m| ==> BitAt(m, i) == if a <= i < b then v else BitAt(m0, i)
  }

  /** `w'` is `w` with bits `lo..hi` made `v`. */
  ghost predicate WordChanged(w': bv64, w: bv64, lo: nat, hi: nat, v: bool) {
    forall j: nat :: j < 64 ==> Bit(w', j) == if lo <= j < hi then v else Bit(w, j)
  }

  lemma ChangeNext(m: seq<bv64>, m0: seq<bv64>, a: nat, b: nat, c: nat, v: bool, p: nat, w: bv64)
    requires Changed(m, m0, a, b, v) && p == b / 64 < |m| && a <= b <= c <= 64 * (p + 1)
    requires WordChanged(w, m[p], b % 64, b % 64 + (c - b), v)
    ensures Changed(m[p := w], m0, a, c, v)
  {
    hide Bit;
    var m' := m[p := w];
    forall i: nat | i < 64 * |m| ensures BitAt(m', i) == if a <= i < c then v else BitAt(m0, i) {
      assert BitAt(m, i) == if a <= i < b then v else BitAt(m0, i);
      if i / 64 == p {
        assert Bit(w, i % 64) == if b % 64 <= i % 64 < b % 64 + (c - b) then v else Bit(m[p], i % 64);
      }
    }
  }

  /** The mask of one step: from `lo` to the end of the word, or to `hi`. */
  ghost predicate Masks(mask: bv64, lo: nat, hi: nat) {
    forall j: nat :: j < 64 ==> (Bit(mask, j) <==> lo <= j < hi)
  }

  lemma MaskHigh(lo: nat)
    requires lo < 64
    ensures Masks(High(lo), lo, 64)
  {
    hide Bit, High;
    forall j: nat | j < 64 ensures Bit(High(lo), j) <==> lo <= j { BitHigh(lo, j); }
  }

  lemma MaskOnes()
    ensures Masks(ONES, 0, 64)
  {
    hide Bit;
    forall j: nat | j < 64 ensures Bit(ONES, j) { BitOnes(j); }
  }

  lemma MaskBoth(mask: bv64, lo: nat, hi: nat)
    requires Masks(mask, lo, 64) && 0 < hi < 64
    ensures Masks(And(mask, Low(hi)), lo, hi)
  {
    hide Bit, Low, And;
    var both := And(mask, Low(hi));
    forall j: nat | j < 64 ensures Bit(both, j) <==> lo <= j < hi {
      BitOps(mask, Low(hi), j);
      BitLow(hi, j);
    }
  }

  lemma MaskSets(w: bv64, mask: bv64, lo: nat, hi: nat)
    requires Masks(mask, lo, hi)
    ensures WordChanged(Or(w, mask), w, lo, hi, true) && WordChanged(And(w, Not(mask)), w, lo, hi, false)
  {
    hide Bit, Or, And, Not;
    var raised, cleared := Or(w, mask), And(w, Not(mask));
    forall j: nat | j < 64
      ensures Bit(raised, j) == (if lo <= j < hi then true else Bit(w, j))
      ensures Bit(cleared, j) == (if lo <= j < hi then false else Bit(w, j))
    {
      BitOps(w, mask, j);
      BitOps(w, Not(mask), j);
    }
  }

  method Set(words: array<bv64>, start: nat, nr: nat)
    requires start + nr <= 64 * words.Length
    modifies words
    ensures Changed(words[..], old(words[..]), start, start + nr, true)
  {
    hide Changed, WordChanged, Masks, High, Low, Or, And;
    var p := start / 64;
    var left := nr;
    var bits := 64 - start % 64;
    var mask := High(start % 64);
    ghost var pos := start;
    NothingChanged(words[..], start, true);
    MaskHigh(start % 64);
    while left - bits >= 0
      invariant 0 <= left && pos + left == start + nr && start <= pos && p == pos / 64 && bits == 64 - pos % 64
      invariant Masks(mask, pos % 64, 64)
      invariant Changed(words[..], old(words[..]), start, pos, true)
    {
      ghost var before := words[..];
      MaskSets(words[p], mask, pos % 64, 64);
      ChangeNext(before, old(words[..]), start, pos, pos + bits, true, p, Or(words[p], mask));
      words[p] := Or(words[p], mask);
      assert words[..] == before[p := Or(before[p], mask)];
      left := left - bits;
      pos := pos + bits;
      bits := 64;
      mask := ONES;
      MaskOnes();
      p := p + 1;
    }
    if left > 0 {
      ghost var before := words[..];
      MaskBoth(mask, pos % 64, (start + nr) % 64);
      mask := And(mask, Low((start + nr) % 64));
      MaskSets(words[p], mask, pos % 64, (start + nr) % 64);
      ChangeNext(before, old(words[..]), start, pos, pos + left, true, p, Or(words[p], mask));
      words[p] := Or(words[p], mask);
      assert words[..] == before[p := Or(before[p], mask)];
    }
  }

  method Clear(words: array<bv64>, start: nat, nr: nat)
    requires start + nr <= 64 * words.Length
    modifies words
    ensures Changed(words[..], old(words[..]), start, start + nr, false)
  {
    hide Changed, WordChanged, Masks, High, Low, And, Not;
    var p := start / 64;
    var left := nr;
    var bits := 64 - start % 64;
    var mask := High(start % 64);
    ghost var pos := start;
    NothingChanged(words[..], start, false);
    MaskHigh(start % 64);
    while left - bits >= 0
      invariant 0 <= left && pos + left == start + nr && start <= pos && p == pos / 64 && bits == 64 - pos % 64
      invariant Masks(mask, pos % 64, 64)
      invariant Changed(words[..], old(words[..]), start, pos, false)
    {
      ghost var before := words[..];
      MaskSets(words[p], mask, pos % 64, 64);
      ChangeNext(before, old(words[..]), start, pos, pos + bits, false, p, And(words[p], Not(mask)));
      words[p] := And(words[p], Not(mask));
      assert words[..] == before[p := And(before[p], Not(mask))];
      left := left - bits;
      pos := pos + bits;
      bits := 64;
      mask := ONES;
      MaskOnes();
      p := p + 1;
    }
    if left > 0 {
      ghost var before := words[..];
      MaskBoth(mask, pos % 64, (start + nr) % 64);
      mask := And(mask, Low((start + nr) % 64));
      MaskSets(words[p], mask, pos % 64, (start + nr) % 64);
      ChangeNext(before, old(words[..]), start, pos, pos + left, false, p, And(words[p], Not(mask)));
      words[p] := And(words[p], Not(mask));
      assert words[..] == before[p := And(before[p], Not(mask))];
    }
  }

  lemma NothingChanged(m: seq<bv64>, a: nat, v: bool)
    ensures Changed(m, m, a, a, v)
  {
  }

  /** Clearing a range that was clear before it was set brings every bit back. */
  lemma ClearUndoesSet(m0: seq<bv64>, m1: seq<bv64>, m2: seq<bv64>, a: nat, b: nat, i: nat)
    requires Changed(m1, m0, a, b, true) && Changed(m2, m1, a, b, false) && b <= 64 * |m0|
    requires NoneIn(m0, a, b, true) && i < 64 * |m0|
    ensures BitAt(m2, i) == BitAt(m0, i)
  {
    hide BitAt;
    assert BitAt(m1, i) == if a <= i < b then true else BitAt(m0, i);
    assert BitAt(m2, i) == if a <= i < b then false else BitAt(m1, i);
  }

  // ----- searching -----

  /** No bit of `a..b` is `v`. */
  ghost predicate NoneIn(m: seq<bv64>, a: nat, b: nat, v: bool) {
    b <= 64 * |m| && forall i: nat :: a <= i < b ==> BitAt(m, i) != v
  }

  /** The answer of a search for `v` in `a..b`. */
  ghost predicate FirstIn(m: seq<bv64>, a: nat, b: nat, v: bool, r: nat) {
    a <= r <= b <= 64 * |m| && NoneIn(m, a, r, v) && (r < b ==> BitAt(m, r) == v)
  }

  /** `tmp` has, from bit `lo` on, the bits of word `p` that are `v`, up to bit `hi`. */
  ghost predicate Candidates(m: seq<bv64>, p: nat, tmp: bv64, lo: nat, hi: nat, v: bool) {
    p < |m| && hi <= 64 && forall j: nat :: j < 64 ==> (Bit(tmp, j) <==> lo <= j < hi && Bit(m[p], j) == v)
  }

  /** The first candidate is the answer. */
  lemma Found(m: seq<bv64>, a: nat, b: nat, v: bool, p: nat, tmp: bv64, lo: nat, hi: nat, n: nat)
    requires Candidates(m, p, tmp, lo, hi, v) && n < 64 && Bit(tmp, n) && forall j: nat :: j < n ==> !Bit(tmp, j)
    requires a <= 64 * p + lo && NoneIn(m, a, 64 * p + lo, v) && 64 * p + hi <= b <= 64 * |m|
    ensures FirstIn(m, a, b, v, 64 * p + n)
  {
    hide Bit;
    assert lo <= n < hi && Bit(m[p], n) == v;
    forall i: nat | a <= i < 64 * p + n ensures BitAt(m, i) != v {
      if i >= 64 * p + lo {
        assert !Bit(tmp, i - 64 * p);
      }
    }
  }

  /** No candidate: the search goes on behind them. */
  lemma NotFound(m: seq<bv64>, a: nat, v: bool, p: nat, tmp: bv64, lo: nat, hi: nat)
    requires Candidates(m, p, tmp, lo, hi, v) && ZeroLow(tmp, 64) && NoneIn(m, a, 64 * p + lo, v)
    ensures NoneIn(m, a, 64 * p + hi, v)
  {
    hide Bit;
    forall i: nat | a <= i < 64 * p + hi ensures BitAt(m, i) != v {
      if i >= 64 * p + lo {
        assert !Bit(tmp, i - 64 * p);
      }
    }
  }

  lemma NoCandidates(tmp: bv64)
    requires tmp == 0
    ensures ZeroLow(tmp, 64)
  {
    hide Bit;
    forall j: nat | j < 64 ensures !Bit(tmp, j) { BitOnes(j); }
  }

  lemma CandidatesAll(m: seq<bv64>, p: nat)
    requires p < |m|
    ensures Candidates(m, p, m[p], 0, 64, true) && Candidates(m, p, Not(m[p]), 0, 64, false)
  {
    hide Bit, Not;
    forall j: nat | j < 64 ensures Bit(Not(m[p]), j) == !Bit(m[p], j) { BitOps(0, m[p], j); }
  }

  /** Masking off the bits below `lo`. */
  lemma CandidatesFrom(m: seq<bv64>, p: nat, lo: nat)
    requires p < |m| && 0 < lo < 64
    ensures Candidates(m, p, And(m[p], High(lo)), lo, 64, true)
    ensures Candidates(m, p, Not(Or(m[p], LowShift(lo))), lo, 64, false)
  {
    hide Bit, And, Or, Not, High, LowShift;
    var x, y := And(m[p], High(lo)), Or(m[p], LowShift(lo));
    var z := Not(y);
    forall j: nat | j < 64
      ensures Bit(x, j) <==> lo <= j && Bit(m[p], j)
      ensures Bit(z, j) <==> lo <= j && !Bit(m[p], j)
    {
      BitOps(m[p], High(lo), j);
      BitOps(m[p], LowShift(lo), j);
      BitOps(0, y, j);
      BitHigh(lo, j);
      BitLow(lo, j);
    }
  }

  /** Masking off the bits from `hi` on. */
  lemma CandidatesUpTo(m: seq<bv64>, p: nat, tmp: bv64, lo: nat, hi: nat)
    requires p < |m| && 0 < hi < 64
    ensures Candidates(m, p, tmp, lo, 64, true) ==> Candidates(m, p, And(tmp, LowShift(hi)), lo, hi, true)
    ensures Candidates(m, p, Not(tmp), lo, 64, false) ==> Candidates(m, p, Not(Or(tmp, High(hi))), lo, hi, false)
  {
    hide Bit, And, Or, Not, High, LowShift;
    var x, y := And(tmp, LowShift(hi)), Or(tmp, High(hi));
    var z, t := Not(y), Not(tmp);
    forall j: nat | j < 64
      ensures Bit(x, j) <==> j < hi && Bit(tmp, j)
      ensures Bit(z, j) <==> j < hi && Bit(t, j)
    {
      BitOps(tmp, LowShift(hi), j);
      BitOps(tmp, High(hi), j);
      BitOps(0, y, j);
      BitOps(0, tmp, j);
      BitHigh(hi, j);
      BitLow(hi, j);
    }
  }

  /** `found_first` and `found_middle` of find_next_bit, for the word at `result`. */
  method FinishBit(words: array<bv64>, ghost a: nat, ghost b: nat, tmp: bv64, result: nat, size: nat, ghost lo: nat)
    returns (r: nat)
    requires result % 64 == 0 && 0 < size < 64 && a <= result + lo && result + size == b <= 64 * words.Length
    requires Candidates(words[..], result / 64, tmp, lo, 64, true)
    requires NoneIn(words[..], a, result + lo, true) && lo <= size
    ensures FirstIn(words[..], a, b, true, r)
  {
    hide Candidates, NoneIn, And, LowShift, Bit, ZeroLow;
    CandidatesUpTo(words[..], result / 64, tmp, lo, size);
    var masked := And(tmp, LowShift(size));
    if masked == 0 {
      NoCandidates(masked);
      NotFound(words[..], a, true, result / 64, masked, lo, size);
      return result + size;
    }
    var n := FirstBit(masked);
    Found(words[..], a, b, true, result / 64, masked, lo, size, n);
    return result + n;
  }

  method FindNextBit(words: array<bv64>, size: nat, offset: nat) returns (r: nat)
    requires size <= 64 * words.Length
    ensures offset >= size ==> r == size
    ensures offset < size ==> FirstIn(words[..], offset, size, true, r)
  {
    hide Candidates, NoneIn, And, High, Bit, ZeroLow;
    if offset >= size {
      return size;
    }
    var p := offset / 64;
    var result := offset - offset % 64;
    var left: nat := size - result;
    var off := offset % 64;
    NoneYet(words[..], offset, true);
    if off > 0 {
      CandidatesFrom(words[..], p, off);
      var tmp := And(words[p], High(off));
      if left < 64 {
        r := FinishBit(words, offset, size, tmp, result, left, off);
        return;
      }
      if tmp != 0 {
        var n := FirstBit(tmp);
        Found(words[..], offset, size, true, p, tmp, off, 64, n);
        return result + n;
      }
      NoCandidates(tmp);
      NotFound(words[..], offset, true, p, tmp, off, 64);
      p, left, result := p + 1, left - 64, result + 64;
    }
    while left >= 64
      invariant result == 64 * p && result + left == size && offset <= result && NoneIn(words[..], offset, result, true)
    {
      CandidatesAll(words[..], p);
      var tmp := words[p];
      if tmp != 0 {
        var n := FirstBit(tmp);
        Found(words[..], offset, size, true, p, tmp, 0, 64, n);
        return result + n;
      }
      NoCandidates(tmp);
      NotFound(words[..], offset, true, p, tmp, 0, 64);
      p, left, result := p + 1, left - 64, result + 64;
    }
    if left == 0 {
      return result;
    }
    CandidatesAll(words[..], p);
    r := FinishBit(words, offset, size, words[p], result, left, 0);
  }

  lemma NoneYet(m: seq<bv64>, a: nat, v: bool)
    requires a <= 64 * |m|
    ensures NoneIn(m, a, a, v)
  {
  }

  lemma NotOnes(tmp: bv64)
    ensures Not(tmp) == 0 <==> tmp == ONES
  {
  }

  /** The same for find_next_zero_bit; ffz searches the complement. */
  method FinishZero(words: array<bv64>, ghost a: nat, ghost b: nat, tmp: bv64, result: nat, size: nat, ghost lo: nat)
    returns (r: nat)
    requires result % 64 == 0 && 0 < size < 64 && a <= result + lo && result + size == b <= 64 * words.Length
    requires Candidates(words[..], result / 64, Not(tmp), lo, 64, false)
    requires NoneIn(words[..], a, result + lo, false) && lo <= size
    ensures FirstIn(words[..], a, b, false, r)
  {
    hide Candidates, NoneIn, Or, Not, High, Bit, ZeroLow;
    CandidatesUpTo(words[..], result / 64, tmp, lo, size);
    var masked := Or(tmp, High(size));
    NotOnes(masked);
    if masked == ONES {
      NoCandidates(Not(masked));
      NotFound(words[..], a, false, result / 64, Not(masked), lo, size);
      return result + size;
    }
    var n := FirstBit(Not(masked));
    Found(words[..], a, b, false, result / 64, Not(masked), lo, size, n);
    return result + n;
  }

  method FindNextZeroBit(words: array<bv64>, size: nat, offset: nat) returns (r: nat)
    requires size <= 64 * words.Length
    ensures offset >= size ==> r == size
    ensures offset < size ==> FirstIn(words[..], offset, size, false, r)
  {
    hide Candidates, NoneIn, Or, Not, LowShift, Bit, ZeroLow;
    if offset >= size {
      return size;
    }
    var p := offset / 64;
    var result := offset - offset % 64;
    var left: nat := size - result;
    var off := offset % 64;
    NoneYet(words[..], offset, false);
    if off > 0 {
      CandidatesFrom(words[..], p, off);
      var tmp := Or(words[p], LowShift(off));
      if left < 64 {
        r := FinishZero(words, offset, size, tmp, result, left, off);
        return;
      }
      if Not(tmp) != 0 {
        var n := FirstBit(Not(tmp));
        Found(words[..], offset, size, false, p, Not(tmp), off, 64, n);
        return result + n;
      }
      NoCandidates(Not(tmp));
      NotFound(words[..], offset, false, p, Not(tmp), off, 64);
      p, left, result := p + 1, left - 64, result + 64;
    }
    while left >= 64
      invariant result == 64 * p && result + left == size && offset <= result
      invariant NoneIn(words[..], offset, result, false)
    {
      CandidatesAll(words[..], p);
      var tmp := words[p];
      if Not(tmp) != 0 {
        var n := FirstBit(Not(tmp));
        Found(words[..], offset, size, false, p, Not(tmp), 0, 64, n);
        return result + n;
      }
      NoCandidates(Not(tmp));
      NotFound(words[..], offset, false, p, Not(tmp), 0, 64);
      p, left, result := p + 1, left - 64, result + 64;
    }
    if left == 0 {
      return result;
    }
    CandidatesAll(words[..], p);
    r := FinishZero(words, offset, size, words[p], result, left, 0);
  }

  // ----- areas -----

  /** ALIGN_MASK for a mask one less than `align`: rounds up to a multiple, as AlignMaskRoundsUp shows of words. */
  function AlignUp(x: nat, align: nat): (r: nat)
    requires align > 0
    ensures x <= r < x + align && r % align == 0
  {
    MultipleOf((x + align - 1) / align, align);
    assert (x + align - 1) / align * align == x + align - 1 - (x + align - 1) % align;
    (x + align - 1) / align * align
  }

  predicate Odd(w: bv64) { w & 1 == 1 }

  function Half(w: bv64): bv64 { w >> 1 }

  /** A word with the bits of a mask cleared. */
  function Cleared(w: bv64, mask: bv64): bv64 { w & !mask }

  /** The number that the low `n` bits of a word denote. */
  function Value(w: bv64, n: nat): nat {
    if n == 0 then 0 else (if Odd(w) then 1 else 0) + 2 * Value(Half(w), n - 1)
  }

  /** A mask is one less than a power of two. */
  predicate IsMask(mask: bv64) {
    mask & (mask + 1) == 0
  }

  lemma HalfMask(w: bv64, mask: bv64)
    requires IsMask(mask) && mask != 0
    ensures Odd(mask) && IsMask(Half(mask))
    ensures !Odd(Cleared(w, mask)) && Half(Cleared(w, mask)) == Cleared(Half(w), Half(mask))
  {
  }

  lemma NoMask(w: bv64)
    ensures Cleared(w, 0) == w && !Odd(0) && Half(0) == 0
  {
  }

  lemma {:induction false} ValueOfNone(n: nat)
    ensures Value(0, n) == 0
    decreases n
  {
    hide Odd, Half;
    NoMask(0);
    if n == 0 {
    } else {
      ValueOfNone(n - 1);
    }
  }

  /** Clearing the bits of a mask rounds down. */
  lemma {:induction false} MaskRoundsDown(w: bv64, mask: bv64, n: nat)
    requires IsMask(mask)
    ensures Value(Cleared(w, mask), n) == Value(w, n) - Value(w, n) % (Value(mask, n) + 1)
    decreases n
  {
    hide Odd, Half, Cleared, IsMask;
    if n == 0 {
    } else if mask == 0 {
      NoMask(w);
      ValueOfNone(n);
    } else {
      HalfMask(w, mask);
      MaskRoundsDown(Half(w), Half(mask), n - 1);
      HalfRemainder(Value(Half(w), n - 1), if Odd(w) then 1 else 0, Value(Half(mask), n - 1) + 1);
    }
  }

  lemma HalfRemainder(y: nat, bit: nat, d: nat)
    requires bit < 2 && d > 0
    ensures (bit + 2 * y) % (2 * d) == bit + 2 * (y % d)
  {
    var q, r := y / d, y % d;
    assert bit + 2 * y == q * (2 * d) + (bit + 2 * r) by { assert 2 * (q * d) == q * (2 * d); }
    Quotient(bit + 2 * y, 2 * d, q, bit + 2 * r);
  }

  /** ALIGN_MASK on words: with `sum` that of `x` and the mask, not wrapped, clearing the mask's bits rounds `x` up. */
  lemma AlignMaskRoundsUp(x: nat, mask: bv64, sum: bv64)
    requires IsMask(mask) && Value(sum, 64) == x + Value(mask, 64)
    ensures Value(Cleared(sum, mask), 64) == AlignUp(x, Value(mask, 64) + 1)
  {
    hide IsMask, Value, Cleared, AlignUp;
    MaskRoundsDown(sum, mask, 64);
    AlignUpIs(x, Value(mask, 64) + 1);
  }

  lemma AlignUpIs(x: nat, align: nat)
    requires align > 0
    ensures var y := x + align - 1; AlignUp(x, align) == y - y % align
  {
  }

  lemma AlignLeast(x: nat, align: nat, y: nat)
    requires align > 0 && x <= y && y % align == 0
    ensures AlignUp(x, align) <= y
  {
    var r := AlignUp(x, align);
    if r > y {
      assert r == r / align * align && y == y / align * align;
      if r / align >= y / align + 1 {
        Monotone(y / align + 1, r / align, align);
      } else {
        Monotone(r / align, y / align, align);
      }
    }
  }

  /** An aligned run of `nr` zero bits at or after `start`, within `size`. */
  ghost predicate Room(m: seq<bv64>, size: nat, start: nat, nr: nat, align: nat, x: nat)
    requires size <= 64 * |m| && align > 0
  {
    start <= x && x % align == 0 && x + nr <= size && NoneIn(m, x, x + nr, true)
  }

  /** bitmap_find_next_zero_area: the least such place, or a number above `size` exactly when there is none. */
  method FindZeroArea(words: array<bv64>, size: nat, start: nat, nr: nat, align: nat) returns (r: nat)
    requires size <= 64 * words.Length && nr >= 1 && align > 0
    ensures r <= size ==> Room(words[..], size, start, nr, align, r)
    ensures forall x: nat :: Room(words[..], size, start, nr, align, x) ==> r <= size && r <= x
  {
    hide BitAt;
    var s := start;
    while true
      invariant start <= s
      invariant forall x: nat :: Room(words[..], size, start, nr, align, x) ==> s <= x
      decreases size - s
    {
      var zero := FindNextZeroBit(words, size, s);
      var index := AlignUp(zero, align);
      forall x: nat | Room(words[..], size, start, nr, align, x) ensures index <= x {
        AfterZero(words[..], size, s, zero, x, nr);
        AlignLeast(zero, align, x);
      }
      var end := index + nr;
      if end > size {
        return end;
      }
      var i := FindNextBit(words, end, index);
      if i >= end {
        return index;
      }
      s := i + 1;
    }
  }

  /** A run of zeros at or after `s` starts no earlier than the first zero. */
  lemma AfterZero(m: seq<bv64>, size: nat, s: nat, zero: nat, x: nat, nr: nat)
    requires size <= 64 * |m| && s <= x && nr >= 1 && x + nr <= size && NoneIn(m, x, x + nr, true)
    requires if s >= size then zero == size else FirstIn(m, s, size, false, zero)
    ensures zero <= x
  {
    hide BitAt;
    assert !BitAt(m, x);
  }

  /** Finding room and marking it, as an allocator does. */
  method Allocate(words: array<bv64>, size: nat, nr: nat, align: nat) returns (r: nat)
    requires size <= 64 * words.Length && nr >= 1 && align > 0
    modifies words
    ensures r <= size ==>
              Room(old(words[..]), size, 0, nr, align, r) && Changed(words[..], old(words[..]), r, r + nr, true)
    ensures r > size ==> words[..] == old(words[..])
    ensures forall x: nat :: Room(old(words[..]), size, 0, nr, align, x) ==> r <= size && r <= x
  {
    r := FindZeroArea(words, size, 0, nr, align);
    if r <= size {
      Set(words, r, nr);
    }
  }

  /** The bitmap after an attempt to allocate `n` bits that answered `x`: the least room is taken if there is any. */
  ghost predicate Allocated(was: seq<bv64>, now: seq<bv64>, size: nat, n: nat, align: nat, x: nat)
    requires size <= 64 * |was| && align > 0
  {
    && (if x <= size then Room(was, size, 0, n, align, x) && Changed(now, was, x, x + n, true) else now == was)
    && forall p: nat :: Room(was, size, 0, n, align, p) ==> x <= size && x <= p
  }

  /**
   * Successive allocations are disjoint, and freeing both brings every bit back; `one` and `two` are the bitmaps
   * between.
   */
  method AllocateTwice(words: array<bv64>, size: nat, n: nat, k: nat, align: nat)
    returns (x: nat, y: nat, one: seq<bv64>, two: seq<bv64>)
    requires size <= 64 * words.Length && n >= 1 && k >= 1 && align > 0
    modifies words
    ensures Allocated(old(words[..]), one, size, n, align, x)
    ensures |one| == words.Length && Allocated(one, two, size, k, align, y)
    ensures x <= size && y <= size ==> x + n <= y || y + k <= x
    ensures forall i: nat :: i < 64 * words.Length ==> BitAt(words[..], i) == BitAt(old(words[..]), i)
  {
    hide BitAt;
    ghost var m0 := words[..];
    x := Allocate(words, size, n, align);
    one := words[..];
    y := Allocate(words, size, k, align);
    two := words[..];
    ghost var m1, m2 := one, two;
    if x <= size && y <= size {
      Disjoint(m0, m1, x, n, y, k);
    }
    if y <= size {
      Clear(words, y, k);
      forall i: nat | i < 64 * |m0| ensures BitAt(words[..], i) == BitAt(m1, i) {
        ClearUndoesSet(m1, m2, words[..], y, y + k, i);
      }
    }
    ghost var m3 := words[..];
    assert SameBits(m3, m1);
    if x <= size {
      Clear(words, x, n);
      forall i: nat | i < 64 * |m0| ensures BitAt(words[..], i) == BitAt(m0, i) {
        assert BitAt(m3, i) == BitAt(m1, i);
        assert BitAt(words[..], i) == if x <= i < x + n then false else BitAt(m3, i);
      }
    }
  }

  ghost predicate SameBits(m: seq<bv64>, m': seq<bv64>) {
    |m| == |m'| && forall i: nat :: i < 64 * |m| ==> BitAt(m, i) == BitAt(m', i)
  }

  lemma Disjoint(m0: seq<bv64>, m1: seq<bv64>, x: nat, n: nat, y: nat, k: nat)
    requires Changed(m1, m0, x, x + n, true) && NoneIn(m1, y, y + k, true) && x + n <= 64 * |m0| && n >= 1 && k >= 1
    ensures x + n <= y || y + k <= x
  {
    hide BitAt;
    var i := if x < y then y else x;
    if i < x + n {
      assert BitAt(m1, i);
    }
  }
}

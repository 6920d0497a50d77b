/** Bits of 64-bit words: shift amounts, masks and the first set bit. */
module Bits {
  const ONES: bv64 := 0xffff_ffff_ffff_ffff

  /** A small number as a shift amount. */
  function Amount(i: nat): bv64
    requires i <= 64
  {
    if i == 0 then 0 else (Amount(i / 2) << 1) | (if i % 2 == 1 then 1 else 0)
  }

  lemma {:induction false} AmountOrder(i: nat, j: nat)
    requires i < j <= 64
    ensures Amount(i) < Amount(j)
    decreases j
  {
    AmountBound(i);
    AmountBound(j);
    if i > 0 { AmountBound(i / 2); }
    AmountBound(j / 2);
    if i / 2 < j / 2 {
      AmountOrder(i / 2, j / 2);
      HalfOrder(Amount(i / 2), Amount(j / 2));
    }
  }

  lemma HalfOrder(x: bv64, y: bv64)
    requires x < y <= 32
    ensures (x << 1) | 1 < y << 1 && x << 1 < y << 1 && (x << 1) | 1 < (y << 1) | 1 && x << 1 < (y << 1) | 1
  {
  }

  lemma {:induction false} AmountBound(i: nat)
    requires i <= 64
    ensures Amount(i) <= 64 && (i < 64 ==> Amount(i) < 64) && (i < 32 ==> Amount(i) < 32) && (i < 16 ==> Amount(i) < 16)
    ensures (i < 8 ==> Amount(i) < 8) && (i < 4 ==> Amount(i) < 4) && (i < 2 ==> Amount(i) < 2)
  {
    if i == 0 {
    } else {
      AmountBound(i / 2);
    }
  }

  /** Bit `i` of `w`, by shift amount. */
  predicate At(w: bv64, k: bv64)
    requires k < 64
  {
    (w >> k) & 1 == 1
  }

  lemma AtOr(a: bv64, b: bv64, k: bv64)
    requires k < 64
    ensures At(a | b, k) == (At(a, k) || At(b, k))
  {
  }

  lemma AtAnd(a: bv64, b: bv64, k: bv64)
    requires k < 64
    ensures At(a & b, k) == (At(a, k) && At(b, k))
  {
  }

  lemma AtNot(a: bv64, k: bv64)
    requires k < 64
    ensures At(!a, k) == !At(a, k)
  {
  }

  function HighBy(s: bv64): bv64
    requires s < 64
  {
    ONES << s
  }

  function LowBy(e: bv64): bv64
    requires 0 < e < 64
  {
    (1 << e) - 1
  }

  function LowShiftBy(e: bv64): bv64
    requires 0 < e < 64
  {
    ONES >> (64 - e)
  }

  lemma AtHigh(s: bv64, k: bv64)
    requires s < 64 && k < 64
    ensures At(HighBy(s), k) == (s <= k)
  {
  }

  lemma AtLow(e: bv64, k: bv64)
    requires 0 < e < 64 && k < 64
    ensures At(LowBy(e), k) == (k < e)
  {
  }

  lemma AtLowShift(e: bv64, k: bv64)
    requires 0 < e < 64 && k < 64
    ensures At(LowShiftBy(e), k) == (k < e)
  {
  }

  // ----- by number -----

  /** Bit `i` of `w`. */
  predicate Bit(w: bv64, i: nat)
    requires i < 64
  {
    AmountBound(i);
    At(w, Amount(i))
  }

  function Or(a: bv64, b: bv64): bv64 {
    a | b
  }

  function And(a: bv64, b: bv64): bv64 {
    a & b
  }

  function Not(a: bv64): bv64 {
    !a
  }

  lemma BitOps(a: bv64, b: bv64, i: nat)
    requires i < 64
    ensures Bit(Or(a, b), i) == (Bit(a, i) || Bit(b, i))
    ensures Bit(And(a, b), i) == (Bit(a, i) && Bit(b, i))
    ensures Bit(Not(b), i) == !Bit(b, i)
  {
    hide At, Amount;
    AmountBound(i);
    AtOr(a, b, Amount(i));
    AtAnd(a, b, Amount(i));
    AtNot(b, Amount(i));
  }

  /** BITMAP_FIRST_WORD_MASK: the bits from `s` on. */
  function High(s: nat): bv64
    requires s < 64
  {
    AmountBound(s);
    HighBy(Amount(s))
  }

  /** BITMAP_LAST_WORD_MASK of a number that is not a multiple of the word: the bits below `e`. */
  function Low(e: nat): bv64
    requires 0 < e < 64
  {
    AmountBound(e);
    AmountCompare(e, 0);
    LowBy(Amount(e))
  }

  /** The same bits, as the searches write the mask. */
  function LowShift(e: nat): bv64
    requires 0 < e < 64
  {
    AmountBound(e);
    AmountCompare(e, 0);
    LowShiftBy(Amount(e))
  }

  lemma AmountCompare(i: nat, j: nat)
    requires i <= 64 && j <= 64
    ensures i < j <==> Amount(i) < Amount(j)
    ensures i <= j <==> Amount(i) <= Amount(j)
    ensures i > 0 ==> Amount(i) > 0
  {
    hide Amount;
    if i < j { AmountOrder(i, j); }
    if j < i { AmountOrder(j, i); }
    if i > 0 { AmountOrder(0, i); }
  }

  lemma BitHigh(s: nat, i: nat)
    requires s < 64 && i < 64
    ensures Bit(High(s), i) <==> s <= i
  {
    hide At, Amount, HighBy;
    AmountBound(i);
    AmountBound(s);
    AmountCompare(s, i);
    AtHigh(Amount(s), Amount(i));
  }

  lemma BitLow(e: nat, i: nat)
    requires 0 < e < 64 && i < 64
    ensures Bit(Low(e), i) <==> i < e
    ensures Bit(LowShift(e), i) <==> i < e
  {
    hide At, Amount, LowBy, LowShiftBy;
    AmountBound(i);
    AmountBound(e);
    AmountCompare(i, e);
    AmountCompare(e, 0);
    AtLow(Amount(e), Amount(i));
    AtLowShift(Amount(e), Amount(i));
  }

  lemma BitOnes(i: nat)
    requires i < 64
    ensures Bit(ONES, i) && !Bit(0, i)
  {
    AmountBound(i);
    OnesAt(Amount(i));
  }

  lemma OnesAt(k: bv64)
    requires k < 64
    ensures At(ONES, k) && !At(0, k)
  {
  }

  // ----- the first set bit -----

  function Plus(x: bv64, y: bv64): bv64 {
    x + y
  }

  lemma {:induction false} AmountSucc(i: nat)
    requires i < 64
    ensures Amount(i + 1) == Plus(Amount(i), 1)
  {
    if i % 2 == 1 {
      AmountSucc(i / 2);
      Carry(Amount(i / 2));
    } else {
      NoCarry(Amount(i / 2));
    }
  }

  lemma Carry(x: bv64)
    ensures (x + 1) << 1 == ((x << 1) | 1) + 1
  {
  }

  lemma NoCarry(x: bv64)
    ensures (x << 1) | 1 == ((x << 1) | 0) + 1
  {
  }

  lemma PlusAssoc(x: bv64, y: bv64, z: bv64)
    ensures Plus(Plus(x, y), z) == Plus(x, Plus(y, z)) && Plus(x, 0) == x
  {
    assert x + y + z == x + (y + z);
  }

  lemma {:induction false} AmountAdd(i: nat, m: nat)
    requires i + m <= 64
    ensures Amount(i + m) == Plus(Amount(i), Amount(m))
    decreases m
  {
    hide Amount, Plus;
    AmountZero();
    if m == 0 {
      PlusAssoc(Amount(i), 0, 0);
    } else {
      AmountAdd(i, m - 1);
      AmountSucc(i + m - 1);
      AmountSucc(m - 1);
      PlusAssoc(Amount(i), Amount(m - 1), 1);
    }
  }

  lemma AmountZero()
    ensures Amount(0) == 0
  {
  }

  /** `w'` is `w` shifted right by `m`, seen bit by bit. */
  ghost predicate Moves(w: bv64, w': bv64, m: nat) {
    forall i: nat :: Moved(w, w', m, i)
  }

  ghost predicate Moved(w: bv64, w': bv64, m: nat, i: nat) {
    i + m < 64 ==> Bit(w', i) == Bit(w, i + m)
  }

  ghost predicate ZeroLow(w: bv64, m: nat) {
    m <= 64 && forall i: nat :: i < m ==> !Bit(w, i)
  }

  /** `w` is `word` after its first `n` bits, which are zero. */
  ghost predicate Skipped(word: bv64, w: bv64, n: nat) {
    n < 64 && Moves(word, w, n) && ZeroLow(word, n)
  }

  lemma SkipMore(word: bv64, w: bv64, w': bv64, n: nat, m: nat)
    requires Skipped(word, w, n) && n + m < 64 && Moves(w, w', m) && ZeroLow(w, m)
    ensures Skipped(word, w', n + m)
  {
    hide Bit;
    var k := n + m;
    forall i: nat ensures Moved(word, w', k, i) {
      assert Moved(w, w', m, i) && Moved(word, w, n, i + m);
    }
    forall i: nat | i < n + m ensures !Bit(word, i) {
      if i >= n { assert Moved(word, w, n, i - n); }
    }
  }

  lemma At32(w: bv64, k: bv64)
    ensures k < 32 ==> At(w >> 32, k) == At(w, k + 32)
    ensures w & 0xffffffff == 0 && k < 32 ==> !At(w, k)
    ensures w & 0xffffffff == 0 && (w != 0) ==> (w >> 32) & 0xffffffff != 0
  {
  }

  lemma Low32(w: bv64)
    requires w & 0xffffffff == 0
    ensures ZeroLow(w, 32) && Moves(w, w >> 32, 32) && (w != 0 ==> (w >> 32) & 0xffffffff != 0)
  {
    hide At, Amount;
    Amount32();
    At32(w, 0);
    forall i: nat | i < 32 ensures !Bit(w, i) {
      AmountOrder(i, 32);
      At32(w, Amount(i));
    }
    var w' := w >> 32;
    forall i: nat ensures Moved(w, w', 32, i) {
      if i + 32 < 64 {
        AmountOrder(i, 32);
        AmountAdd(i, 32);
        At32(w, Amount(i));
      }
    }
  }

  lemma Amount32()
    ensures Amount(32) == 32
  {
  }

  lemma At16(w: bv64, k: bv64)
    ensures k < 48 ==> At(w >> 16, k) == At(w, k + 16)
    ensures w & 0xffff == 0 && k < 16 ==> !At(w, k)
    ensures w & 0xffff == 0 && (w & 0xffffffff != 0) ==> (w >> 16) & 0xffff != 0
  {
  }

  lemma Low16(w: bv64)
    requires w & 0xffff == 0
    ensures ZeroLow(w, 16) && Moves(w, w >> 16, 16) && (w & 0xffffffff != 0 ==> (w >> 16) & 0xffff != 0)
  {
    hide At, Amount;
    Amount16();
    At16(w, 0);
    forall i: nat | i < 16 ensures !Bit(w, i) {
      AmountOrder(i, 16);
      At16(w, Amount(i));
    }
    var w' := w >> 16;
    forall i: nat ensures Moved(w, w', 16, i) {
      if i + 16 < 64 {
        AmountOrder(i, 48);
        AmountAdd(i, 16);
        At16(w, Amount(i));
      }
    }
  }

  lemma Amount16()
    ensures Amount(16) == 16 && Amount(48) == 48
  {
  }

  lemma At8(w: bv64, k: bv64)
    ensures k < 56 ==> At(w >> 8, k) == At(w, k + 8)
    ensures w & 0xff == 0 && k < 8 ==> !At(w, k)
    ensures w & 0xff == 0 && (w & 0xffff != 0) ==> (w >> 8) & 0xff != 0
  {
  }

  lemma Low8(w: bv64)
    requires w & 0xff == 0
    ensures ZeroLow(w, 8) && Moves(w, w >> 8, 8) && (w & 0xffff != 0 ==> (w >> 8) & 0xff != 0)
  {
    hide At, Amount;
    Amount8();
    At8(w, 0);
    forall i: nat | i < 8 ensures !Bit(w, i) {
      AmountOrder(i, 8);
      At8(w, Amount(i));
    }
    var w' := w >> 8;
    forall i: nat ensures Moved(w, w', 8, i) {
      if i + 8 < 64 {
        AmountOrder(i, 56);
        AmountAdd(i, 8);
        At8(w, Amount(i));
      }
    }
  }

  lemma Amount8()
    ensures Amount(8) == 8 && Amount(56) == 56
  {
  }

  lemma At4(w: bv64, k: bv64)
    ensures k < 60 ==> At(w >> 4, k) == At(w, k + 4)
    ensures w & 0xf == 0 && k < 4 ==> !At(w, k)
    ensures w & 0xf == 0 && (w & 0xff != 0) ==> (w >> 4) & 0xf != 0
  {
  }

  lemma Low4(w: bv64)
    requires w & 0xf == 0
    ensures ZeroLow(w, 4) && Moves(w, w >> 4, 4) && (w & 0xff != 0 ==> (w >> 4) & 0xf != 0)
  {
    hide At, Amount;
    Amount4();
    At4(w, 0);
    forall i: nat | i < 4 ensures !Bit(w, i) {
      AmountOrder(i, 4);
      At4(w, Amount(i));
    }
    var w' := w >> 4;
    forall i: nat ensures Moved(w, w', 4, i) {
      if i + 4 < 64 {
        AmountOrder(i, 60);
        AmountAdd(i, 4);
        At4(w, Amount(i));
      }
    }
  }

  lemma Amount4()
    ensures Amount(4) == 4 && Amount(60) == 60
  {
  }

  lemma At2(w: bv64, k: bv64)
    ensures k < 62 ==> At(w >> 2, k) == At(w, k + 2)
    ensures w & 0x3 == 0 && k < 2 ==> !At(w, k)
    ensures w & 0x3 == 0 && (w & 0xf != 0) ==> (w >> 2) & 0x3 != 0
  {
  }

  lemma Low2(w: bv64)
    requires w & 0x3 == 0
    ensures ZeroLow(w, 2) && Moves(w, w >> 2, 2) && (w & 0xf != 0 ==> (w >> 2) & 0x3 != 0)
  {
    hide At, Amount;
    Amount2();
    At2(w, 0);
    forall i: nat | i < 2 ensures !Bit(w, i) {
      AmountOrder(i, 2);
      At2(w, Amount(i));
    }
    var w' := w >> 2;
    forall i: nat ensures Moved(w, w', 2, i) {
      if i + 2 < 64 {
        AmountOrder(i, 62);
        AmountAdd(i, 2);
        At2(w, Amount(i));
      }
    }
  }

  lemma Amount2()
    ensures Amount(2) == 2 && Amount(62) == 62
  {
  }

  lemma At1(w: bv64, k: bv64)
    ensures k < 63 ==> At(w >> 1, k) == At(w, k + 1)
    ensures w & 0x1 == 0 && k < 1 ==> !At(w, k)
    ensures w & 0x1 == 0 && (w & 0x3 != 0) ==> (w >> 1) & 0x1 != 0
  {
  }

  lemma Low1(w: bv64)
    requires w & 0x1 == 0
    ensures ZeroLow(w, 1) && Moves(w, w >> 1, 1) && (w & 0x3 != 0 ==> (w >> 1) & 0x1 != 0)
  {
    hide At, Amount;
    Amount1();
    At1(w, 0);
    forall i: nat | i < 1 ensures !Bit(w, i) {
      AmountOrder(i, 1);
      At1(w, Amount(i));
    }
    var w' := w >> 1;
    forall i: nat ensures Moved(w, w', 1, i) {
      if i + 1 < 64 {
        AmountOrder(i, 63);
        AmountAdd(i, 1);
        At1(w, Amount(i));
      }
    }
  }

  lemma Amount1()
    ensures Amount(1) == 1 && Amount(63) == 63
  {
  }

  /** bitops_ffsl: halves the search until one bit is left. */
  method FirstBit(word: bv64) returns (n: nat)
    requires word != 0
    ensures n < 64 && Bit(word, n) && forall i: nat :: i < n ==> !Bit(word, i)
  {
    hide Bit, Skipped, Moves, ZeroLow;
    var w := word;
    n := 0;
    NothingSkipped(word);
    if w & 0xffffffff == 0 {
      Low32(w);
      SkipMore(word, w, w >> 32, n, 32);
      n, w := n + 32, w >> 32;
    }
    if w & 0xffff == 0 {
      Low16(w);
      SkipMore(word, w, w >> 16, n, 16);
      n, w := n + 16, w >> 16;
    }
    if w & 0xff == 0 {
      Low8(w);
      SkipMore(word, w, w >> 8, n, 8);
      n, w := n + 8, w >> 8;
    }
    if w & 0xf == 0 {
      Low4(w);
      SkipMore(word, w, w >> 4, n, 4);
      n, w := n + 4, w >> 4;
    }
    if w & 0x3 == 0 {
      Low2(w);
      SkipMore(word, w, w >> 2, n, 2);
      n, w := n + 2, w >> 2;
    }
    ghost var last := w;
    if w & 0x1 == 0 {
      Low1(w);
      SkipMore(word, w, w >> 1, n, 1);
      last := w >> 1;
      n := n + 1;
    }
    LastStep(word, last, n);
  }

  lemma NothingSkipped(word: bv64)
    ensures Skipped(word, word, 0)
  {
  }

  lemma LastStep(word: bv64, w: bv64, n: nat)
    requires Skipped(word, w, n) && w & 1 != 0
    ensures Bit(word, n) && forall i: nat :: i < n ==> !Bit(word, i)
  {
    assert Moved(word, w, n, 0);
  }
}

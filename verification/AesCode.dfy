/** The key schedules and block functions of the AES code, on arrays, against FIPS 197. */
module AesCode {
  import opened AesField
  import opened Aes
  import opened Wire

  /** The round constants, as powers of x. */
  ghost function XPow(i: nat): bv8 { if i == 0 then 1 else Xtime(XPow(i - 1)) }

  ghost function Rcon(i: nat): bv32 { Pack(Col(XPow(i), 0, 0, 0)) }

  const RCON: seq<bv32> := [
    0x0100_0000, 0x0200_0000, 0x0400_0000, 0x0800_0000, 0x1000_0000,
    0x2000_0000, 0x4000_0000, 0x8000_0000, 0x1b00_0000, 0x3600_0000]

  /** The table of round constants holds the powers of x. */
  lemma RconTable(i: nat)
    requires i < 10
    ensures |RCON| == 10 && RCON[i] == Rcon(i)
  {
    assert XPow(0) == 1 && XPow(1) == 2 && XPow(2) == 4;
    assert XPow(3) == 8 && XPow(4) == 0x10 && XPow(5) == 0x20;
    assert XPow(6) == 0x40 && XPow(7) == 0x80;
    assert XPow(8) == 0x1b && XPow(9) == 0x36;
  }

  function SubWord(w: bv32): bv32 { Pack(SubCol(Unpack(w))) }
  function RotWord(w: bv32): bv32 { Pack(Col(Byte1(w), Byte2(w), Byte3(w), Byte0(w))) }

  /** The key expansion of section 5.2 of FIPS 197, word by word, from a key of 4, 6 or 8 words. */
  ghost function Expand(k: seq<bv32>, i: nat): bv32
    requires |k| == 4 || |k| == 6 || |k| == 8
  {
    var nk := |k|;
    if i < nk then k[i]
    else if i % nk == 0 then Xor32(Xor32(SubWord(RotWord(Expand(k, i - 1))), Expand(k, i - nk)), Rcon(i / nk - 1))
    else if nk == 8 && i % nk == 4 then Xor32(SubWord(Expand(k, i - 1)), Expand(k, i - nk))
    else Xor32(Expand(k, i - nk), Expand(k, i - 1))
  }

  lemma UnpackInjective(v: bv32, w: bv32)
    requires Unpack(v) == Unpack(w)
    ensures v == w
  {
    hide Pack, Unpack;
    PackUnpack(v);
    PackUnpack(w);
  }

  /** The four masked table lookups are SubWord of the bytes looked up. */
  lemma MaskedWord(a: bv8, b: bv8, c: bv8, d: bv8, k: bv32)
    ensures Masked(Te4(a), Te4(b), Te4(c), Te4(d), k) == Xor32(Pack(Col(Sub(a), Sub(b), Sub(c), Sub(d))), k)
  {
    hide Pack, Unpack, Sub, Masked, Xor32;
    var s := Col(Sub(a), Sub(b), Sub(c), Sub(d));
    MaskedColumn(s.b0, s.b1, s.b2, s.b3, k);
    UnpackXor(Pack(s), k);
    UnpackPack(s);
    UnpackInjective(Masked(Te4(a), Te4(b), Te4(c), Te4(d), k), Xor32(Pack(s), k));
  }

  function GetU32(b: seq<bv8>, i: nat): bv32
    requires i + 4 <= |b|
  {
    Pack(Col(b[i], b[i + 1], b[i + 2], b[i + 3]))
  }

  function KeyWords(userKey: seq<bv8>, nk: nat): (k: seq<bv32>)
    requires |userKey| >= 4 * nk
    ensures |k| == nk
    ensures forall i :: 0 <= i < nk ==>
              Unpack(k[i]) == Col(userKey[4 * i], userKey[4 * i + 1], userKey[4 * i + 2], userKey[4 * i + 3])
  {
    WordsUnpack(userKey, nk);
    seq(nk, i requires 0 <= i < nk => GetU32(userKey, 4 * i))
  }

  lemma WordsUnpack(b: seq<bv8>, n: nat)
    requires |b| >= 4 * n
    ensures forall i :: 0 <= i < n ==>
              Unpack(GetU32(b, 4 * i)) == Col(b[4 * i], b[4 * i + 1], b[4 * i + 2], b[4 * i + 3])
  {
    hide Pack, Unpack;
    forall i | 0 <= i < n ensures Unpack(GetU32(b, 4 * i)) == Col(b[4 * i], b[4 * i + 1], b[4 * i + 2], b[4 * i + 3]) {
      UnpackPack(Col(b[4 * i], b[4 * i + 1], b[4 * i + 2], b[4 * i + 3]));
    }
  }

  /** `Te4` lookups of the rotated word, the previous key word and a round constant. */
  function RotLookup(temp: bv32, prev: bv32, rc: bv32): bv32 {
    Xor32(Masked(Te4(Byte1(temp)), Te4(Byte2(temp)), Te4(Byte3(temp)), Te4(Byte0(temp)), prev), rc)
  }

  function PlainLookup(temp: bv32, prev: bv32): bv32 {
    Masked(Te4(Byte0(temp)), Te4(Byte1(temp)), Te4(Byte2(temp)), Te4(Byte3(temp)), prev)
  }

  lemma LookupWords(temp: bv32, prev: bv32, rc: bv32)
    ensures RotLookup(temp, prev, rc) == Xor32(Xor32(SubWord(RotWord(temp)), prev), rc)
    ensures PlainLookup(temp, prev) == Xor32(SubWord(temp), prev)
  {
    hide Pack, Sub, Masked, Xor32, Byte0, Byte1, Byte2, Byte3, Te4, Unpack;
    MaskedWord(Byte1(temp), Byte2(temp), Byte3(temp), Byte0(temp), prev);
    MaskedWord(Byte0(temp), Byte1(temp), Byte2(temp), Byte3(temp), prev);
    UnpackPack(Col(Byte1(temp), Byte2(temp), Byte3(temp), Byte0(temp)));
    UnpackIs(temp);
  }

  lemma UnpackIs(w: bv32)
    ensures Unpack(w) == Col(Byte0(w), Byte1(w), Byte2(w), Byte3(w))
  {
  }

  /** The first `hi` words of the array are those of the key expansion. */
  ghost predicate Expanded(rk: array<bv32>, k: seq<bv32>, hi: nat)
    reads rk
  {
    && (|k| == 4 || |k| == 6 || |k| == 8)
    && hi <= rk.Length
    && forall j :: 0 <= j < hi ==> rk[j] == Expand(k, j)
  }

  /** A key schedule: 4 words for each of `rounds + 1` round keys. */
  class AesKey {
    const rdKey: array<bv32>
    var rounds: nat

    constructor ()
      ensures fresh(rdKey) && rdKey.Length == 60
    {
      rdKey := new bv32[60];
      rounds := 0;
    }
  }

  /** Stores the next word of the expansion. */
  method PutWord(rk: array<bv32>, ghost k: seq<bv32>, at: nat, w: bv32)
    requires Expanded(rk, k, at) && at < rk.Length && w == Expand(k, at)
    modifies rk
    ensures Expanded(rk, k, at + 1)
  {
    hide Expand;
    rk[at] := w;
  }

  /** Row `i` of the expansion, of `nk` words, begins at `base`. */
  ghost predicate RowStart(nk: nat, base: nat, i: nat)
    requires nk > 0
  {
    base % nk == 0 && base / nk == i
  }

  /** The next four words of the expansion, the first of them from a rotated lookup. */
  method ExpandFour(rk: array<bv32>, ghost k: seq<bv32>, nk: nat, base: nat, i: nat)
    requires |k| == nk && Expanded(rk, k, base + |k|) && base + |k| + 4 <= rk.Length
    requires RowStart(|k|, base, i) && i < 10
    modifies rk
    ensures Expanded(rk, k, base + |k| + 4)
  {
    hide Expand, RotLookup, SubWord, RotWord, Rcon, RCON, RowStart, Xor32;
    ExpandRow(k, base, i);
    var temp := rk[base + nk - 1];
    RconTable(i);
    LookupWords(temp, rk[base], RCON[i]);
    PutWord(rk, k, base + nk, RotLookup(temp, rk[base], RCON[i]));
    PutWord(rk, k, base + nk + 1, Xor32(rk[base + 1], rk[base + nk]));
    PutWord(rk, k, base + nk + 2, Xor32(rk[base + 2], rk[base + nk + 1]));
    PutWord(rk, k, base + nk + 3, Xor32(rk[base + 3], rk[base + nk + 2]));
  }

  /** The recurrence for the first four words of a row of the expansion. */
  lemma ExpandRow(k: seq<bv32>, base: nat, i: nat)
    requires |k| == 4 || |k| == 6 || |k| == 8
    requires RowStart(|k|, base, i)
    ensures var m := base + |k|;
            && Expand(k, m) == Xor32(Xor32(SubWord(RotWord(Expand(k, m - 1))), Expand(k, base)), Rcon(i))
            && Expand(k, m + 1) == Xor32(Expand(k, base + 1), Expand(k, m))
            && Expand(k, m + 2) == Xor32(Expand(k, base + 2), Expand(k, m + 1))
            && Expand(k, m + 3) == Xor32(Expand(k, base + 3), Expand(k, m + 2))
  {
    hide Expand, SubWord, RotWord, Rcon, Xor32;
    var m := base + |k|;
    RowIndex(base, |k|);
    ExpandFirst(k, m);
    ExpandPlain(k, m + 1);
    ExpandPlain(k, m + 2);
    ExpandPlain(k, m + 3);
  }

  lemma ExpandFirst(k: seq<bv32>, j: nat)
    requires |k| == 4 || |k| == 6 || |k| == 8
    requires j >= |k| && j % |k| == 0
    ensures j / |k| > 0
    ensures Expand(k, j) == Xor32(Xor32(SubWord(RotWord(Expand(k, j - 1))), Expand(k, j - |k|)), Rcon(j / |k| - 1))
  {
    hide SubWord, RotWord, Rcon, Xor32;
  }

  lemma ExpandPlain(k: seq<bv32>, j: nat)
    requires |k| == 4 || |k| == 6 || |k| == 8
    requires j >= |k| && j % |k| > 0 && (|k| == 8 ==> j % |k| != 4)
    ensures Expand(k, j) == Xor32(Expand(k, j - |k|), Expand(k, j - 1))
  {
    hide SubWord, RotWord, Rcon, Xor32;
  }

  lemma RowIndex(base: nat, nk: nat)
    requires (nk == 4 || nk == 6 || nk == 8) && base % nk == 0
    ensures var m := base + nk;
            && m % nk == 0 && m / nk == base / nk + 1
            && (m + 1) % nk == 1 && (m + 2) % nk == 2 && (m + 3) % nk == 3
            && (nk > 4 ==> (m + 4) % nk == 4 && (m + 5) % nk == 5)
            && (nk > 6 ==> (m + 6) % nk == 6 && (m + 7) % nk == 7)
  {
    if nk == 4 {
      RowIndex4(base);
    } else if nk == 6 {
      RowIndex6(base);
    } else {
      RowIndex8(base);
    }
  }

  lemma RowIndex4(b: nat)
    requires b % 4 == 0
    ensures (b + 4) % 4 == 0 && (b + 4) / 4 == b / 4 + 1
    ensures (b + 5) % 4 == 1 && (b + 6) % 4 == 2 && (b + 7) % 4 == 3
  {
  }

  lemma RowIndex6(b: nat)
    requires b % 6 == 0
    ensures (b + 6) % 6 == 0 && (b + 6) / 6 == b / 6 + 1
    ensures (b + 7) % 6 == 1 && (b + 8) % 6 == 2 && (b + 9) % 6 == 3
    ensures (b + 10) % 6 == 4 && (b + 11) % 6 == 5
  {
  }

  lemma RowIndex8(b: nat)
    requires b % 8 == 0
    ensures (b + 8) % 8 == 0 && (b + 8) / 8 == b / 8 + 1
    ensures (b + 9) % 8 == 1 && (b + 10) % 8 == 2 && (b + 11) % 8 == 3
    ensures (b + 12) % 8 == 4 && (b + 13) % 8 == 5 && (b + 14) % 8 == 6 && (b + 15) % 8 == 7
  {
  }

  /** Expands a user key: -1 without a key or a place for the schedule, -2 for a bad length, else 0 and the schedule. */
  method SetEncryptKey(userKey: Option<seq<bv8>>, bits: int, key: AesKey?) returns (status: int)
    requires key != null ==> key.rdKey.Length == 60
    requires userKey.Some? && (bits == 128 || bits == 192 || bits == 256) ==> |userKey.value| >= bits / 8
    modifies key, if key == null then {} else {key.rdKey}
    ensures userKey.None? || key == null ==> status == -1
    ensures userKey.Some? && key != null && bits != 128 && bits != 192 && bits != 256 ==> status == -2
    ensures userKey.Some? && key != null && (bits == 128 || bits == 192 || bits == 256) ==>
              && status == 0 && key.rounds == bits / 32 + 6
              && Expanded(key.rdKey, KeyWords(userKey.value, bits / 32), 4 * (key.rounds + 1))
              && KeyBytes(key.rdKey[..], userKey.value, bits / 32)
              && forall i :: bits / 32 <= i < 4 * (key.rounds + 1) ==> KeyStep(key.rdKey[..], bits / 32, i)
    ensures status != 0 && key != null ==> key.rounds == old(key.rounds) && key.rdKey[..] == old(key.rdKey[..])
  {
    hide Expand, GetU32;
    if userKey.None? || key == null {
      return -1;
    }
    if bits != 128 && bits != 192 && bits != 256 {
      return -2;
    }
    var rk := key.rdKey;
    key.rounds := if bits == 128 then 10 else if bits == 192 then 12 else 14;
    var nk := bits / 32;
    ghost var k := KeyWords(userKey.value, nk);
    for j := 0 to nk
      invariant Expanded(rk, k, j) && key.rounds == nk + 6
    {
      ExpandKeyWord(k, j);
      PutWord(rk, k, j, GetU32(userKey.value, 4 * j));
    }
    if bits == 128 {
      Expand128(rk, k);
    } else if bits == 192 {
      Expand192(rk, k);
    } else {
      Expand256(rk, k);
    }
    ExpandedBytes(rk[..], userKey.value, nk, 4 * (key.rounds + 1));
    return 0;
  }

  /** The first words of a schedule are the bytes of the key, in order. */
  ghost predicate KeyBytes(rk: seq<bv32>, userKey: seq<bv8>, nk: nat) {
    nk <= |rk| && 4 * nk <= |userKey| && forall i :: 0 <= i < nk ==> KeyWordIs(rk[i], userKey, i)
  }

  ghost predicate KeyWordIs(w: bv32, userKey: seq<bv8>, i: nat)
    requires 4 * i + 4 <= |userKey|
  {
    && Byte0(w) == userKey[4 * i] && Byte1(w) == userKey[4 * i + 1]
    && Byte2(w) == userKey[4 * i + 2] && Byte3(w) == userKey[4 * i + 3]
  }

  /** Word `i` is the word `nk` before it plus the word before it, which may first be turned, substituted and marked. */
  ghost predicate KeyStep(rk: seq<bv32>, nk: nat, i: nat) {
    0 < nk <= i < |rk| &&
    var back, t, w := Unpack(rk[i - nk]), Unpack(rk[i - 1]), Unpack(rk[i]);
    if i % nk == 0 then
      w == Col(Xor(Xor(Sub(t.b1), back.b0), XPow(i / nk - 1)), Xor(Sub(t.b2), back.b1), Xor(Sub(t.b3), back.b2),
               Xor(Sub(t.b0), back.b3))
    else if nk == 8 && i % nk == 4 then
      w == Col(Xor(Sub(t.b0), back.b0), Xor(Sub(t.b1), back.b1), Xor(Sub(t.b2), back.b2), Xor(Sub(t.b3), back.b3))
    else
      w == Col(Xor(back.b0, t.b0), Xor(back.b1, t.b1), Xor(back.b2, t.b2), Xor(back.b3, t.b3))
  }

  lemma ExpandedBytes(rk: seq<bv32>, userKey: seq<bv8>, nk: nat, hi: nat)
    requires (nk == 4 || nk == 6 || nk == 8) && |userKey| >= 4 * nk && nk <= hi <= |rk|
    requires forall j :: 0 <= j < hi ==> rk[j] == Expand(KeyWords(userKey, nk), j)
    ensures KeyBytes(rk, userKey, nk) && forall i :: nk <= i < hi ==> KeyStep(rk, nk, i)
  {
    hide Expand, KeyStep, KeyWords;
    var k := KeyWords(userKey, nk);
    forall i | 0 <= i < nk ensures KeyWordIs(rk[i], userKey, i) {
      ExpandKeyWord(k, i);
      UnpackIs(k[i]);
    }
    forall i | nk <= i < hi ensures KeyStep(rk, nk, i) {
      StepBytes(rk, k, i);
    }
  }

  lemma StepBytes(rk: seq<bv32>, k: seq<bv32>, i: nat)
    requires (|k| == 4 || |k| == 6 || |k| == 8) && |k| <= i < |rk|
    requires rk[i] == Expand(k, i) && rk[i - 1] == Expand(k, i - 1) && rk[i - |k|] == Expand(k, i - |k|)
    ensures KeyStep(rk, |k|, i)
  {
    hide Sub, Xor, Xor32, Pack, Unpack, XPow, RotWord, SubWord, Rcon, Expand;
    var nk, back, last := |k|, rk[i - |k|], rk[i - 1];
    ExpandNext(k, i);
    if i % nk == 0 {
      TurnedBytes(last, back, i / nk - 1);
    } else if nk == 8 && i % nk == 4 {
      SubWordBytes(last);
      UnpackXor(SubWord(last), back);
    } else {
      UnpackXor(back, last);
    }
  }

  lemma ExpandNext(k: seq<bv32>, i: nat)
    requires (|k| == 4 || |k| == 6 || |k| == 8) && |k| <= i
    ensures var nk, back, last := |k|, Expand(k, i - |k|), Expand(k, i - 1);
            Expand(k, i) == if i % nk == 0 then Xor32(Xor32(SubWord(RotWord(last)), back), Rcon(i / nk - 1))
                            else if nk == 8 && i % nk == 4 then Xor32(SubWord(last), back)
                            else Xor32(back, last)
  {
    hide Sub, Xor, Xor32, Pack, Unpack, XPow, RotWord, SubWord, Rcon;
  }

  lemma SubWordBytes(w: bv32)
    ensures var t := Unpack(w); Unpack(SubWord(w)) == Col(Sub(t.b0), Sub(t.b1), Sub(t.b2), Sub(t.b3))
  {
    hide Sub, Xor, Xor32, Pack, Unpack;
    UnpackPack(SubCol(Unpack(w)));
  }

  /** A step that rotates, substitutes and adds a round constant. */
  lemma TurnedBytes(last: bv32, back: bv32, n: nat)
    ensures var t, b, w := Unpack(last), Unpack(back), Xor32(Xor32(SubWord(RotWord(last)), back), Rcon(n));
            Unpack(w) == Col(Xor(Xor(Sub(t.b1), b.b0), XPow(n)), Xor(Sub(t.b2), b.b1),
                             Xor(Sub(t.b3), b.b2), Xor(Sub(t.b0), b.b3))
  {
    hide Sub, Xor, Xor32, Pack, Unpack, XPow, SubWord, Byte0, Byte1, Byte2, Byte3;
    UnpackIs(last);
    UnpackPack(Col(Byte1(last), Byte2(last), Byte3(last), Byte0(last)));
    SubWordBytes(RotWord(last));
    UnpackXor(SubWord(RotWord(last)), back);
    UnpackXor(Xor32(SubWord(RotWord(last)), back), Rcon(n));
    UnpackPack(Col(XPow(n), 0, 0, 0));
    ZeroBytes(Xor(Sub(Byte2(last)), Unpack(back).b1));
    ZeroBytes(Xor(Sub(Byte3(last)), Unpack(back).b2));
    ZeroBytes(Xor(Sub(Byte0(last)), Unpack(back).b3));
  }

  lemma ZeroBytes(x: bv8)
    ensures Xor(x, 0) == x
  {
  }

  lemma ExpandKeyWord(k: seq<bv32>, j: nat)
    requires (|k| == 4 || |k| == 6 || |k| == 8) && j < |k|
    ensures Expand(k, j) == k[j]
  {
  }

  /** The 128-bit loop: ten rows of four words. */
  method Expand128(rk: array<bv32>, ghost k: seq<bv32>)
    requires rk.Length == 60 && |k| == 4 && Expanded(rk, k, 4)
    modifies rk
    ensures Expanded(rk, k, 44)
  {
    var i, base := 0, 0;
    while true
      invariant 0 <= i < 10 && base == 4 * i && Expanded(rk, k, base + 4)
      decreases 10 - i
    {
      ExpandFour(rk, k, 4, base, i);
      i := i + 1;
      if i == 10 {
        return;
      }
      base := base + 4;
    }
  }

  /** The 192-bit loop: rows of six words, the last one cut after four. */
  method Expand192(rk: array<bv32>, ghost k: seq<bv32>)
    requires rk.Length == 60 && |k| == 6 && Expanded(rk, k, 6)
    modifies rk
    ensures Expanded(rk, k, 52)
  {
    hide Expand, Xor32;
    var i, base := 0, 0;
    while true
      invariant 0 <= i < 8 && base == 6 * i && Expanded(rk, k, base + 6)
      decreases 8 - i
    {
      ExpandFour(rk, k, 6, base, i);
      i := i + 1;
      if i == 8 {
        return;
      }
      RowIndex6(base);
      ExpandPlain(k, base + 10);
      ExpandPlain(k, base + 11);
      PutWord(rk, k, base + 10, Xor32(rk[base + 4], rk[base + 9]));
      PutWord(rk, k, base + 11, Xor32(rk[base + 5], rk[base + 10]));
      base := base + 6;
    }
  }

  /** The 256-bit loop: rows of eight words, with a plain lookup in the middle, the last one cut. */
  method Expand256(rk: array<bv32>, ghost k: seq<bv32>)
    requires rk.Length == 60 && |k| == 8 && Expanded(rk, k, 8)
    modifies rk
    ensures Expanded(rk, k, 60)
  {
    hide Expand;
    var i, base := 0, 0;
    while true
      invariant 0 <= i < 7 && base == 8 * i && Expanded(rk, k, base + 8)
      decreases 7 - i
    {
      ExpandFour(rk, k, 8, base, i);
      i := i + 1;
      if i == 7 {
        return;
      }
      ExpandMiddleFour(rk, k, base);
      base := base + 8;
    }
  }

  /** The last four words of a row of eight. */
  method ExpandMiddleFour(rk: array<bv32>, ghost k: seq<bv32>, base: nat)
    requires base + 16 <= rk.Length && |k| == 8 && base % 8 == 0 && Expanded(rk, k, base + 12)
    modifies rk
    ensures Expanded(rk, k, base + 16)
  {
    hide Expand, Xor32, PlainLookup, SubWord;
    MiddleRow(k, base);
    LookupWords(rk[base + 11], rk[base + 4], 0);
    PutWord(rk, k, base + 12, PlainLookup(rk[base + 11], rk[base + 4]));
    PutWord(rk, k, base + 13, Xor32(rk[base + 5], rk[base + 12]));
    PutWord(rk, k, base + 14, Xor32(rk[base + 6], rk[base + 13]));
    PutWord(rk, k, base + 15, Xor32(rk[base + 7], rk[base + 14]));
  }

  lemma MiddleRow(k: seq<bv32>, base: nat)
    requires |k| == 8 && base % 8 == 0
    ensures Expand(k, base + 12) == Xor32(SubWord(Expand(k, base + 11)), Expand(k, base + 4))
    ensures Expand(k, base + 13) == Xor32(Expand(k, base + 5), Expand(k, base + 12))
    ensures Expand(k, base + 14) == Xor32(Expand(k, base + 6), Expand(k, base + 13))
    ensures Expand(k, base + 15) == Xor32(Expand(k, base + 7), Expand(k, base + 14))
  {
    hide Expand, Xor32, SubWord;
    RowIndex8(base);
    ExpandMiddle(k, base + 12);
    ExpandPlain(k, base + 13);
    ExpandPlain(k, base + 14);
    ExpandPlain(k, base + 15);
  }

  lemma ExpandMiddle(k: seq<bv32>, j: nat)
    requires |k| == 8 && j >= 8 && j % 8 == 4
    ensures Expand(k, j) == Xor32(SubWord(Expand(k, j - 1)), Expand(k, j - 8))
  {
    hide SubWord, RotWord, Rcon, Xor32;
  }

  /** The inverse mixing of a key word, by way of both tables. */
  function InvMixLookup(w: bv32): bv32 {
    Xor32(Xor32(Td0(Byte3(Te4(Byte0(w)))), Td1(Byte3(Te4(Byte1(w))))),
          Xor32(Td2(Byte3(Te4(Byte2(w)))), Td3(Byte3(Te4(Byte3(w))))))
  }

  /** The two lookups cancel the S-box and leave InvMixColumns. */
  lemma InvMixLookupIs(w: bv32)
    ensures Unpack(InvMixLookup(w)) == InvMixCol(Unpack(w))
  {
    hide Sub, InvSub, Td0, Td1, Td2, Td3, Unpack, InvMixCol, XorCol, Xor32, Xor5;
    var c := Unpack(w);
    Te4Byte(Byte0(w));
    Te4Byte(Byte1(w));
    Te4Byte(Byte2(w));
    Te4Byte(Byte3(w));
    UnpackIs(w);
    DecryptColumn(Sub(c.b0), Sub(c.b1), Sub(c.b2), Sub(c.b3), 0);
    SubInverts(c.b0);
    SubInverts(c.b1);
    SubInverts(c.b2);
    SubInverts(c.b3);
    var t := InvMixLookup(w);
    PlusZero(t);
    Xor5Zero(Td0(Sub(c.b0)), Td1(Sub(c.b1)), Td2(Sub(c.b2)), Td3(Sub(c.b3)));
    XorColZero(InvMixCol(c));
  }

  lemma Te4Byte(x: bv8)
    ensures Byte3(Te4(x)) == Sub(x)
  {
    hide Sub;
  }

  lemma PlusZero(w: bv32)
    ensures Xor32(w, 0) == w
  {
  }

  lemma Xor5Zero(a: bv32, b: bv32, c: bv32, d: bv32)
    ensures Xor5(a, b, c, d, 0) == Xor32(Xor32(a, b), Xor32(c, d))
  {
    hide Xor32;
    PlusZero(Xor32(Xor32(a, b), Xor32(c, d)));
  }

  lemma XorColZero(c: Col)
    ensures XorCol(c, Unpack(0)) == c
  {
  }

  /** Round key `r` of a schedule held as words. */
  ghost function RoundKey(rk: seq<bv32>, r: nat): State {
    if 4 * r + 4 <= |rk| then
      State(Unpack(rk[4 * r]), Unpack(rk[4 * r + 1]), Unpack(rk[4 * r + 2]), Unpack(rk[4 * r + 3]))
    else State(Unpack(0), Unpack(0), Unpack(0), Unpack(0))
  }

  ghost function RoundKeys(rk: seq<bv32>): Schedule { (r: nat) => RoundKey(rk, r) }

  /** The encryption schedule of FIPS 197 for a key. */
  ghost function EncSchedule(k: seq<bv32>): Schedule
    requires |k| == 4 || |k| == 6 || |k| == 8
  {
    (r: nat) => State(Unpack(Expand(k, 4 * r)), Unpack(Expand(k, 4 * r + 1)),
                      Unpack(Expand(k, 4 * r + 2)), Unpack(Expand(k, 4 * r + 3)))
  }

  /** The four words from `i` on are the four words of `before` from `j` on. */
  ghost predicate SameGroup(now: seq<bv32>, i: nat, before: seq<bv32>, j: nat)
    requires i + 4 <= |now| && j + 4 <= |before|
  {
    now[i] == before[j] && now[i + 1] == before[j + 1] && now[i + 2] == before[j + 2] && now[i + 3] == before[j + 3]
  }

  /** Swaps the round keys at words `i` and `j`. */
  method SwapGroups(rk: array<bv32>, i: nat, j: nat)
    requires i + 4 <= j && j + 4 <= rk.Length
    modifies rk
    ensures SameGroup(rk[..], i, old(rk[..]), j) && SameGroup(rk[..], j, old(rk[..]), i)
    ensures forall m :: 0 <= m < rk.Length && !(i <= m < i + 4) && !(j <= m < j + 4) ==> rk[m] == old(rk[m])
  {
    rk[i], rk[j] := rk[j], rk[i];
    rk[i + 1], rk[j + 1] := rk[j + 1], rk[i + 1];
    rk[i + 2], rk[j + 2] := rk[j + 2], rk[i + 2];
    rk[i + 3], rk[j + 3] := rk[j + 3], rk[i + 3];
  }

  /** Where the round key at group `r` comes from once the outer `g` pairs are swapped. */
  function Origin(rounds: nat, g: nat, r: nat): nat
    requires r <= rounds
  {
    if r < g || r > rounds - g then rounds - r else r
  }

  lemma OriginStep(now: seq<bv32>, mid: seq<bv32>, before: seq<bv32>, rounds: nat, g: nat, r: nat)
    requires |now| == |mid| == |before| && 4 * rounds + 4 <= |now| && 2 * g < rounds && r <= rounds
    requires SameGroup(now, 4 * g, mid, 4 * (rounds - g)) && SameGroup(now, 4 * (rounds - g), mid, 4 * g)
    requires forall m :: 0 <= m < |now| && !(4 * g <= m < 4 * g + 4) && !(4 * (rounds - g) <= m < 4 * (rounds - g) + 4)
                         ==> now[m] == mid[m]
    requires forall q :: 0 <= q <= rounds ==> SameGroup(mid, 4 * q, before, 4 * Origin(rounds, g, q))
    ensures SameGroup(now, 4 * r, before, 4 * Origin(rounds, g + 1, r))
  {
    assert SameGroup(mid, 4 * r, before, 4 * Origin(rounds, g, r));
    if r == g || r == rounds - g {
      assert SameGroup(mid, 4 * (rounds - r), before, 4 * Origin(rounds, g, rounds - r));
    } else {
      assert 4 * r + 4 <= 4 * g || 4 * g + 4 <= 4 * r;
      assert 4 * r + 4 <= 4 * (rounds - g) || 4 * (rounds - g) + 4 <= 4 * r;
      assert SameGroup(now, 4 * r, mid, 4 * r);
      assert Origin(rounds, g + 1, r) == Origin(rounds, g, r);
    }
  }

  /** Reverses the order of the round keys in place. */
  method ReverseRoundKeys(rk: array<bv32>, rounds: nat)
    requires 4 * rounds + 4 <= rk.Length
    modifies rk
    ensures forall r :: 0 <= r <= rounds ==> SameGroup(rk[..], 4 * r, old(rk[..]), 4 * (rounds - r))
  {
    ghost var before := rk[..];
    var i, j := 0, 4 * rounds;
    ghost var g := 0;
    while i < j
      invariant i == 4 * g && j == 4 * (rounds - g) && 0 <= g && 2 * g <= rounds + 1
      invariant forall r :: 0 <= r <= rounds ==> SameGroup(rk[..], 4 * r, before, 4 * Origin(rounds, g, r))
      decreases j - i
    {
      ghost var mid := rk[..];
      SwapGroups(rk, i, j);
      forall r | 0 <= r <= rounds
        ensures SameGroup(rk[..], 4 * r, before, 4 * Origin(rounds, g + 1, r))
      {
        OriginStep(rk[..], mid, before, rounds, g, r);
      }
      i, j, g := i + 4, j - 4, g + 1;
    }
    forall r | 0 <= r <= rounds
      ensures SameGroup(rk[..], 4 * r, before, 4 * (rounds - r))
    {
      assert SameGroup(rk[..], 4 * r, before, 4 * Origin(rounds, g, r));
    }
  }

  /** Group `r` of `now` is group `r` of `before` through the inverse mixing. */
  ghost predicate MixedGroup(now: seq<bv32>, before: seq<bv32>, i: nat)
    requires i + 4 <= |now| && i + 4 <= |before|
  {
    && now[i] == InvMixLookup(before[i]) && now[i + 1] == InvMixLookup(before[i + 1])
    && now[i + 2] == InvMixLookup(before[i + 2]) && now[i + 3] == InvMixLookup(before[i + 3])
  }

  /** Applies the inverse mixing to one round key. */
  method MixGroup(rk: array<bv32>, p: nat)
    requires p + 4 <= rk.Length
    modifies rk
    ensures MixedGroup(rk[..], old(rk[..]), p)
    ensures forall m :: 0 <= m < rk.Length && !(p <= m < p + 4) ==> rk[m] == old(rk[m])
  {
    hide InvMixLookup;
    rk[p] := InvMixLookup(rk[p]);
    rk[p + 1] := InvMixLookup(rk[p + 1]);
    rk[p + 2] := InvMixLookup(rk[p + 2]);
    rk[p + 3] := InvMixLookup(rk[p + 3]);
  }

  /** Round key `r` once the inverse mixing has been applied to the round keys 1 to `i - 1`. */
  ghost predicate Done(now: seq<bv32>, before: seq<bv32>, r: nat, i: nat)
    requires 4 * r + 4 <= |now| && 4 * r + 4 <= |before|
  {
    if 0 < r < i then MixedGroup(now, before, 4 * r) else SameGroup(now, 4 * r, before, 4 * r)
  }

  /** Applies the inverse mixing to all round keys but the first and the last, in place. */
  method MixRoundKeys(rk: array<bv32>, rounds: nat)
    requires rounds > 0 && 4 * rounds + 4 <= rk.Length
    modifies rk
    ensures forall r :: 0 <= r <= rounds ==> Done(rk[..], old(rk[..]), r, rounds)
  {
    hide InvMixLookup;
    ghost var before := rk[..];
    for i := 1 to rounds
      invariant forall r :: 0 <= r <= rounds ==> Done(rk[..], before, r, i)
    {
      ghost var mid := rk[..];
      MixGroup(rk, 4 * i);
      ghost var next := i + 1;
      forall r | 0 <= r <= rounds
        ensures Done(rk[..], before, r, next)
      {
        assert Done(mid, before, r, i);
      }
    }
  }

  /** Expands a user key into the decryption schedule, with the status of the encryption one. */
  method SetDecryptKey(userKey: Option<seq<bv8>>, bits: int, key: AesKey?) returns (status: int)
    requires key != null ==> key.rdKey.Length == 60
    requires userKey.Some? && (bits == 128 || bits == 192 || bits == 256) ==> |userKey.value| >= bits / 8
    modifies key, if key == null then {} else {key.rdKey}
    ensures userKey.None? || key == null ==> status == -1
    ensures userKey.Some? && key != null && bits != 128 && bits != 192 && bits != 256 ==> status == -2
    ensures userKey.Some? && key != null && (bits == 128 || bits == 192 || bits == 256) ==>
              && status == 0 && key.rounds == bits / 32 + 6
              && forall r :: 0 <= r <= key.rounds ==>
                   RoundKey(key.rdKey[..], r)
                   == DecSchedule(EncSchedule(KeyWords(userKey.value, bits / 32)), key.rounds)(r)
    ensures status != 0 && key != null ==> key.rounds == old(key.rounds) && key.rdKey[..] == old(key.rdKey[..])
  {
    status := SetEncryptKey(userKey, bits, key);
    if status < 0 {
      return;
    }
    var rk, rounds := key.rdKey, key.rounds;
    ghost var k, enc := KeyWords(userKey.value, bits / 32), rk[..];
    ReverseRoundKeys(rk, rounds);
    ghost var rev := rk[..];
    MixRoundKeys(rk, rounds);
    forall r | 0 <= r <= rounds
      ensures RoundKey(rk[..], r) == DecSchedule(EncSchedule(k), rounds)(r)
    {
      assert SameGroup(rev, 4 * r, enc, 4 * (rounds - r));
      assert Done(rk[..], rev, r, rounds);
      DecRoundKey(rk[..], rev, enc, k, rounds, r);
    }
  }

  lemma DecRoundKey(now: seq<bv32>, rev: seq<bv32>, enc: seq<bv32>, k: seq<bv32>, rounds: nat, r: nat)
    requires |now| == |rev| == |enc| && 4 * rounds + 4 <= |enc| && r <= rounds
    requires |k| == 4 || |k| == 6 || |k| == 8
    requires forall j :: 0 <= j < 4 * rounds + 4 ==> enc[j] == Expand(k, j)
    requires SameGroup(rev, 4 * r, enc, 4 * (rounds - r)) && Done(now, rev, r, rounds)
    ensures RoundKey(now, r) == DecSchedule(EncSchedule(k), rounds)(r)
  {
    hide Expand, InvMixLookup, Unpack, InvMixCol;
    var q := 4 * (rounds - r);
    if 0 < r < rounds {
      InvMixLookupIs(enc[q]);
      InvMixLookupIs(enc[q + 1]);
      InvMixLookupIs(enc[q + 2]);
      InvMixLookupIs(enc[q + 3]);
      assert DecSchedule(EncSchedule(k), rounds)(r) == InvMixColumns(EncSchedule(k)(rounds - r));
    } else {
      assert DecSchedule(EncSchedule(k), rounds)(r) == EncSchedule(k)(rounds - r);
    }
    assert EncSchedule(k)(rounds - r) == RoundKey(enc, rounds - r);
  }

  /** The four state words of the code, one per column. */
  datatype Words = Words(w0: bv32, w1: bv32, w2: bv32, w3: bv32)

  function StateOf(w: Words): State { State(Unpack(w.w0), Unpack(w.w1), Unpack(w.w2), Unpack(w.w3)) }

  function TableRound(s: Words, k: Words): Words {
    Words(Xor5(Te0(Byte0(s.w0)), Te1(Byte1(s.w1)), Te2(Byte2(s.w2)), Te3(Byte3(s.w3)), k.w0),
          Xor5(Te0(Byte0(s.w1)), Te1(Byte1(s.w2)), Te2(Byte2(s.w3)), Te3(Byte3(s.w0)), k.w1),
          Xor5(Te0(Byte0(s.w2)), Te1(Byte1(s.w3)), Te2(Byte2(s.w0)), Te3(Byte3(s.w1)), k.w2),
          Xor5(Te0(Byte0(s.w3)), Te1(Byte1(s.w0)), Te2(Byte2(s.w1)), Te3(Byte3(s.w2)), k.w3))
  }

  function LastRound(t: Words, k: Words): Words {
    Words(Masked(Te4(Byte0(t.w0)), Te4(Byte1(t.w1)), Te4(Byte2(t.w2)), Te4(Byte3(t.w3)), k.w0),
          Masked(Te4(Byte0(t.w1)), Te4(Byte1(t.w2)), Te4(Byte2(t.w3)), Te4(Byte3(t.w0)), k.w1),
          Masked(Te4(Byte0(t.w2)), Te4(Byte1(t.w3)), Te4(Byte2(t.w0)), Te4(Byte3(t.w1)), k.w2),
          Masked(Te4(Byte0(t.w3)), Te4(Byte1(t.w0)), Te4(Byte2(t.w1)), Te4(Byte3(t.w2)), k.w3))
  }

  function InvTableRound(s: Words, k: Words): Words {
    Words(Xor5(Td0(Byte0(s.w0)), Td1(Byte1(s.w3)), Td2(Byte2(s.w2)), Td3(Byte3(s.w1)), k.w0),
          Xor5(Td0(Byte0(s.w1)), Td1(Byte1(s.w0)), Td2(Byte2(s.w3)), Td3(Byte3(s.w2)), k.w1),
          Xor5(Td0(Byte0(s.w2)), Td1(Byte1(s.w1)), Td2(Byte2(s.w0)), Td3(Byte3(s.w3)), k.w2),
          Xor5(Td0(Byte0(s.w3)), Td1(Byte1(s.w2)), Td2(Byte2(s.w1)), Td3(Byte3(s.w0)), k.w3))
  }

  function InvLastRound(t: Words, k: Words): Words {
    Words(Masked(Td4(Byte0(t.w0)), Td4(Byte1(t.w3)), Td4(Byte2(t.w2)), Td4(Byte3(t.w1)), k.w0),
          Masked(Td4(Byte0(t.w1)), Td4(Byte1(t.w0)), Td4(Byte2(t.w3)), Td4(Byte3(t.w2)), k.w1),
          Masked(Td4(Byte0(t.w2)), Td4(Byte1(t.w1)), Td4(Byte2(t.w0)), Td4(Byte3(t.w3)), k.w2),
          Masked(Td4(Byte0(t.w3)), Td4(Byte1(t.w2)), Td4(Byte2(t.w1)), Td4(Byte3(t.w0)), k.w3))
  }

  /** A table round is a full round of FIPS 197. */
  lemma TableRoundIs(s: Words, k: Words)
    ensures StateOf(TableRound(s, k)) == AddRoundKey(MixColumns(ShiftRows(SubBytes(StateOf(s)))), StateOf(k))
  {
    hide Xor5, Te0, Te1, Te2, Te3, MixCol, XorCol, Sub, Byte0, Byte1, Byte2, Byte3;
    EncryptColumn(Byte0(s.w0), Byte1(s.w1), Byte2(s.w2), Byte3(s.w3), k.w0);
    EncryptColumn(Byte0(s.w1), Byte1(s.w2), Byte2(s.w3), Byte3(s.w0), k.w1);
    EncryptColumn(Byte0(s.w2), Byte1(s.w3), Byte2(s.w0), Byte3(s.w1), k.w2);
    EncryptColumn(Byte0(s.w3), Byte1(s.w0), Byte2(s.w1), Byte3(s.w2), k.w3);
  }

  lemma LastColumn(a: bv8, b: bv8, c: bv8, d: bv8, k: bv32)
    ensures Unpack(Masked(Te4(a), Te4(b), Te4(c), Te4(d), k)) == XorCol(Col(Sub(a), Sub(b), Sub(c), Sub(d)), Unpack(k))
    ensures Unpack(Masked(Td4(a), Td4(b), Td4(c), Td4(d), k))
         == XorCol(Col(InvSub(a), InvSub(b), InvSub(c), InvSub(d)), Unpack(k))
  {
    hide Pack, Unpack, Sub, InvSub, Masked, XorCol;
    MaskedColumn(Sub(a), Sub(b), Sub(c), Sub(d), k);
    MaskedColumn(InvSub(a), InvSub(b), InvSub(c), InvSub(d), k);
  }

  lemma LastRoundIs(t: Words, k: Words)
    ensures StateOf(LastRound(t, k)) == AddRoundKey(ShiftRows(SubBytes(StateOf(t))), StateOf(k))
  {
    hide Masked, Te4, Td4, XorCol, Sub, Byte0, Byte1, Byte2, Byte3;
    LastColumn(Byte0(t.w0), Byte1(t.w1), Byte2(t.w2), Byte3(t.w3), k.w0);
    LastColumn(Byte0(t.w1), Byte1(t.w2), Byte2(t.w3), Byte3(t.w0), k.w1);
    LastColumn(Byte0(t.w2), Byte1(t.w3), Byte2(t.w0), Byte3(t.w1), k.w2);
    LastColumn(Byte0(t.w3), Byte1(t.w0), Byte2(t.w1), Byte3(t.w2), k.w3);
  }

  /** A decryption table round is a round of the equivalent inverse cipher. */
  lemma InvTableRoundIs(s: Words, k: Words)
    ensures StateOf(InvTableRound(s, k))
         == AddRoundKey(InvMixColumns(InvShiftRows(InvSubBytes(StateOf(s)))), StateOf(k))
  {
    hide Xor5, Td0, Td1, Td2, Td3, InvMixCol, XorCol, InvSub, Byte0, Byte1, Byte2, Byte3;
    DecryptColumn(Byte0(s.w0), Byte1(s.w3), Byte2(s.w2), Byte3(s.w1), k.w0);
    DecryptColumn(Byte0(s.w1), Byte1(s.w0), Byte2(s.w3), Byte3(s.w2), k.w1);
    DecryptColumn(Byte0(s.w2), Byte1(s.w1), Byte2(s.w0), Byte3(s.w3), k.w2);
    DecryptColumn(Byte0(s.w3), Byte1(s.w2), Byte2(s.w1), Byte3(s.w0), k.w3);
  }

  lemma InvLastRoundIs(t: Words, k: Words)
    ensures StateOf(InvLastRound(t, k)) == AddRoundKey(InvShiftRows(InvSubBytes(StateOf(t))), StateOf(k))
  {
    hide Masked, Te4, Td4, XorCol, InvSub, Byte0, Byte1, Byte2, Byte3;
    LastColumn(Byte0(t.w0), Byte1(t.w3), Byte2(t.w2), Byte3(t.w1), k.w0);
    LastColumn(Byte0(t.w1), Byte1(t.w0), Byte2(t.w3), Byte3(t.w2), k.w1);
    LastColumn(Byte0(t.w2), Byte1(t.w1), Byte2(t.w0), Byte3(t.w3), k.w2);
    LastColumn(Byte0(t.w3), Byte1(t.w2), Byte2(t.w1), Byte3(t.w0), k.w3);
  }

  function KeyAt(rk: seq<bv32>, p: nat): Words
    requires p + 4 <= |rk|
  {
    Words(rk[p], rk[p + 1], rk[p + 2], rk[p + 3])
  }

  lemma KeyAtIs(rk: seq<bv32>, r: nat)
    requires 4 * r + 4 <= |rk|
    ensures StateOf(KeyAt(rk, 4 * r)) == RoundKeys(rk)(r)
  {
    hide Unpack;
  }

  /** A block as a state, column by column. */
  function BlockState(b: seq<bv8>): (s: State)
    requires |b| == 16
  {
    State(Col(b[0], b[1], b[2], b[3]), Col(b[4], b[5], b[6], b[7]),
          Col(b[8], b[9], b[10], b[11]), Col(b[12], b[13], b[14], b[15]))
  }

  function StateBlock(s: State): (b: seq<bv8>)
    ensures |b| == 16
  {
    [s.c0.b0, s.c0.b1, s.c0.b2, s.c0.b3, s.c1.b0, s.c1.b1, s.c1.b2, s.c1.b3,
     s.c2.b0, s.c2.b1, s.c2.b2, s.c2.b3, s.c3.b0, s.c3.b1, s.c3.b2, s.c3.b3]
  }

  lemma BlockStateOf(s: State)
    ensures BlockState(StateBlock(s)) == s
  {
  }

  lemma SameBlock(a: seq<bv8>, b: seq<bv8>)
    requires |a| == |b| == 16 && BlockState(a) == BlockState(b)
    ensures a == b
  {
    SameHalf(a[..8], b[..8]);
    SameHalf(a[8..], b[8..]);
    assert a == a[..8] + a[8..] && b == b[..8] + b[8..];
  }

  lemma SameHalf(a: seq<bv8>, b: seq<bv8>)
    requires |a| == |b| == 8
    requires a[0] == b[0] && a[1] == b[1] && a[2] == b[2] && a[3] == b[3]
    requires a[4] == b[4] && a[5] == b[5] && a[6] == b[6] && a[7] == b[7]
    ensures a == b
  {
  }

  function AddWords(a: Words, b: Words): Words {
    Words(Xor32(a.w0, b.w0), Xor32(a.w1, b.w1), Xor32(a.w2, b.w2), Xor32(a.w3, b.w3))
  }

  function LoadWords(b: seq<bv8>): Words
    requires |b| == 16
  {
    Words(GetU32(b, 0), GetU32(b, 4), GetU32(b, 8), GetU32(b, 12))
  }

  /** Loading a block and adding the first round key. */
  lemma LoadWordsIs(b: seq<bv8>, k: Words)
    requires |b| == 16
    ensures StateOf(AddWords(LoadWords(b), k)) == AddRoundKey(BlockState(b), StateOf(k))
  {
    hide Pack, Unpack, Xor32, XorCol;
    var s := BlockState(b);
    UnpackPack(s.c0);
    UnpackPack(s.c1);
    UnpackPack(s.c2);
    UnpackPack(s.c3);
    UnpackXor(Pack(s.c0), k.w0);
    UnpackXor(Pack(s.c1), k.w1);
    UnpackXor(Pack(s.c2), k.w2);
    UnpackXor(Pack(s.c3), k.w3);
  }

  ghost predicate RoundsOk(key: AesKey)
    reads key
  {
    key.rdKey.Length == 60 && (key.rounds == 10 || key.rounds == 12 || key.rounds == 14)
  }

  /** Encrypts one block; the caller may pass a block read from where the result will go. */
  method Encrypt(block: seq<bv8>, key: AesKey) returns (out: seq<bv8>)
    requires |block| == 16 && RoundsOk(key)
    ensures |out| == 16
    ensures BlockState(out) == Cipher(BlockState(block), RoundKeys(key.rdKey[..]), key.rounds)
  {
    hide TableRound, LastRound, StateOf, RoundKeys, KeyAt, AddWords, LoadWords, AddRoundKey,
      SubBytes, ShiftRows, MixColumns, BlockState, StateBlock;
    var rk := key.rdKey[..];
    ghost var x, w := BlockState(block), RoundKeys(rk);
    LoadWordsIs(block, KeyAt(rk, 0));
    KeyAtIs(rk, 0);
    var s, t := AddWords(LoadWords(block), KeyAt(rk, 0)), Words(0, 0, 0, 0);
    var p, r := 0, key.rounds / 2;
    ghost var n := 0;
    while true
      invariant p == 4 * n && r == (key.rounds - n) / 2 && n % 2 == 0 && 0 <= n < key.rounds
      invariant StateOf(s) == EncRounds(x, w, n)
      decreases r
    {
      KeyAtIs(rk, n + 1);
      TableRoundIs(s, KeyAt(rk, p + 4));
      t := TableRound(s, KeyAt(rk, p + 4));
      assert StateOf(t) == EncRounds(x, w, n + 1);
      p, r := p + 8, r - 1;
      if r == 0 {
        break;
      }
      KeyAtIs(rk, n + 2);
      TableRoundIs(t, KeyAt(rk, p));
      s := TableRound(t, KeyAt(rk, p));
      n := n + 2;
    }
    KeyAtIs(rk, key.rounds);
    LastRoundIs(t, KeyAt(rk, p));
    s := LastRound(t, KeyAt(rk, p));
    out := PutWords(s);
  }

  /** Stores the state words byte by byte. */
  method PutWords(s: Words) returns (out: seq<bv8>)
    ensures |out| == 16 && BlockState(out) == StateOf(s)
  {
    hide Byte0, Byte1, Byte2, Byte3;
    out := [Byte0(s.w0), Byte1(s.w0), Byte2(s.w0), Byte3(s.w0), Byte0(s.w1), Byte1(s.w1), Byte2(s.w1), Byte3(s.w1),
            Byte0(s.w2), Byte1(s.w2), Byte2(s.w2), Byte3(s.w2), Byte0(s.w3), Byte1(s.w3), Byte2(s.w3), Byte3(s.w3)];
  }

  /** Decrypts one block under a decryption schedule. */
  method Decrypt(block: seq<bv8>, key: AesKey) returns (out: seq<bv8>)
    requires |block| == 16 && RoundsOk(key)
    ensures |out| == 16
    ensures BlockState(out) == EqInvCipher(BlockState(block), RoundKeys(key.rdKey[..]), key.rounds)
  {
    hide InvTableRound, InvLastRound, StateOf, RoundKeys, KeyAt, AddWords, LoadWords, AddRoundKey,
      InvSubBytes, InvShiftRows, InvMixColumns, BlockState, StateBlock;
    var rk := key.rdKey[..];
    ghost var y, w := BlockState(block), RoundKeys(rk);
    LoadWordsIs(block, KeyAt(rk, 0));
    KeyAtIs(rk, 0);
    var s, t := AddWords(LoadWords(block), KeyAt(rk, 0)), Words(0, 0, 0, 0);
    var p, r := 0, key.rounds / 2;
    ghost var n := 0;
    while true
      invariant p == 4 * n && r == (key.rounds - n) / 2 && n % 2 == 0 && 0 <= n < key.rounds
      invariant StateOf(s) == EqRounds(y, w, n)
      decreases r
    {
      KeyAtIs(rk, n + 1);
      InvTableRoundIs(s, KeyAt(rk, p + 4));
      t := InvTableRound(s, KeyAt(rk, p + 4));
      assert StateOf(t) == EqRounds(y, w, n + 1);
      p, r := p + 8, r - 1;
      if r == 0 {
        break;
      }
      KeyAtIs(rk, n + 2);
      InvTableRoundIs(t, KeyAt(rk, p));
      s := InvTableRound(t, KeyAt(rk, p));
      n := n + 2;
    }
    KeyAtIs(rk, key.rounds);
    InvLastRoundIs(t, KeyAt(rk, p));
    s := InvLastRound(t, KeyAt(rk, p));
    out := PutWords(s);
  }

  /** The schedules set up from one user key. */
  ghost predicate EncKey(key: AesKey, userKey: seq<bv8>, bits: int)
    requires (bits == 128 || bits == 192 || bits == 256) && |userKey| >= bits / 8
    reads key, key.rdKey
  {
    && RoundsOk(key) && key.rounds == bits / 32 + 6
    && Expanded(key.rdKey, KeyWords(userKey, bits / 32), 4 * (key.rounds + 1))
  }

  lemma EncKeySchedule(key: AesKey, userKey: seq<bv8>, bits: int)
    requires (bits == 128 || bits == 192 || bits == 256) && |userKey| >= bits / 8
    requires EncKey(key, userKey, bits)
    ensures forall r :: 0 <= r <= key.rounds ==>
              RoundKeys(key.rdKey[..])(r) == EncSchedule(KeyWords(userKey, bits / 32))(r)
  {
    hide Expand, Unpack, KeyWords;
  }

  /** For every key and block, the decryption code inverts the encryption code. */
  method EncryptThenDecrypt(userKey: seq<bv8>, bits: int, block: seq<bv8>) returns (cipher: seq<bv8>, plain: seq<bv8>)
    requires (bits == 128 || bits == 192 || bits == 256) && |userKey| >= bits / 8 && |block| == 16
    ensures |cipher| == 16
            && BlockState(cipher) == Cipher(BlockState(block), EncSchedule(KeyWords(userKey, bits / 32)), bits / 32 + 6)
    ensures plain == block
  {
    hide Cipher, EqInvCipher, EncSchedule, KeyWords, RoundKeys, DecSchedule, RoundKey, BlockState;
    ghost var w, nr := EncSchedule(KeyWords(userKey, bits / 32)), bits / 32 + 6;
    var enc := new AesKey();
    var status := SetEncryptKey(Some(userKey), bits, enc);
    cipher := Encrypt(block, enc);
    EncKeySchedule(enc, userKey, bits);
    CiphersAgree(BlockState(block), RoundKeys(enc.rdKey[..]), w, nr);
    var dec := new AesKey();
    status := SetDecryptKey(Some(userKey), bits, dec);
    plain := Decrypt(cipher, dec);
    RoundKeysAre(dec.rdKey[..]);
    CiphersAgree(BlockState(cipher), RoundKeys(dec.rdKey[..]), DecSchedule(w, nr), nr);
    DecryptInvertsEncrypt(BlockState(block), w, nr);
    SameBlock(plain, block);
  }

  lemma RoundKeysAre(rk: seq<bv32>)
    ensures forall r: nat :: RoundKeys(rk)(r) == RoundKey(rk, r)
  {
  }
}

/** The AES block cipher: the rounds of FIPS 197 and the table driven code that computes them. */
module Aes {
  import opened AesField

  /** A column of the state, top byte first. */
  datatype Col = Col(b0: bv8, b1: bv8, b2: bv8, b3: bv8)

  datatype State = State(c0: Col, c1: Col, c2: Col, c3: Col)

  function Pack(c: Col): bv32 {
    (c.b0 as bv32 << 24) ^ (c.b1 as bv32 << 16) ^ (c.b2 as bv32 << 8) ^ c.b3 as bv32
  }

  function Byte0(w: bv32): bv8 { (w >> 24) as bv8 }
  function Byte1(w: bv32): bv8 { ((w >> 16) & 0xff) as bv8 }
  function Byte2(w: bv32): bv8 { ((w >> 8) & 0xff) as bv8 }
  function Byte3(w: bv32): bv8 { (w & 0xff) as bv8 }

  function Unpack(w: bv32): Col { Col(Byte0(w), Byte1(w), Byte2(w), Byte3(w)) }

  lemma PackUnpack(w: bv32)
    ensures Pack(Unpack(w)) == w
  {
  }

  lemma UnpackPack(c: Col)
    ensures Unpack(Pack(c)) == c
  {
  }

  function XorCol(a: Col, b: Col): Col {
    Col(Xor(a.b0, b.b0), Xor(a.b1, b.b1), Xor(a.b2, b.b2), Xor(a.b3, b.b3))
  }

  lemma UnpackXor(v: bv32, w: bv32)
    ensures Unpack(Xor32(v, w)) == XorCol(Unpack(v), Unpack(w))
  {
  }

  /** One byte of MixColumns, section 5.1.3 of FIPS 197. */
  function MixByte(a: bv8, b: bv8, c: bv8, d: bv8): bv8 { Xor4(Xtime(a), Mul3(b), c, d) }

  function MixCol(c: Col): Col {
    Col(MixByte(c.b0, c.b1, c.b2, c.b3), MixByte(c.b1, c.b2, c.b3, c.b0),
        MixByte(c.b2, c.b3, c.b0, c.b1), MixByte(c.b3, c.b0, c.b1, c.b2))
  }

  /** One byte of InvMixColumns, section 5.3.3 of FIPS 197. */
  function InvMixByte(a: bv8, b: bv8, c: bv8, d: bv8): bv8 { Xor4(MulE(a), MulB(b), MulD(c), Mul9(d)) }

  function InvMixCol(c: Col): Col {
    Col(InvMixByte(c.b0, c.b1, c.b2, c.b3), InvMixByte(c.b1, c.b2, c.b3, c.b0),
        InvMixByte(c.b2, c.b3, c.b0, c.b1), InvMixByte(c.b3, c.b0, c.b1, c.b2))
  }

  lemma MulXor4(a: bv8, b: bv8, c: bv8, d: bv8)
    ensures Mul9(Xor4(a, b, c, d)) == Xor4(Mul9(a), Mul9(b), Mul9(c), Mul9(d))
    ensures MulB(Xor4(a, b, c, d)) == Xor4(MulB(a), MulB(b), MulB(c), MulB(d))
    ensures MulD(Xor4(a, b, c, d)) == Xor4(MulD(a), MulD(b), MulD(c), MulD(d))
    ensures MulE(Xor4(a, b, c, d)) == Xor4(MulE(a), MulE(b), MulE(c), MulE(d))
  {
    hide Mul9, MulB, MulD, MulE, Xor;
    MulXor(a, b);
    MulXor(c, d);
    MulXor(Xor(a, b), Xor(c, d));
  }

  /** The products of the two mixing matrices, entry by entry. */
  lemma MixEntries(x: bv8)
    ensures Xor4(MulE(Xtime(x)), MulB(x), MulD(x), Mul9(Mul3(x))) == x
    ensures Xor4(MulE(Mul3(x)), MulB(Xtime(x)), MulD(x), Mul9(x)) == 0
    ensures Xor4(MulE(x), MulB(Mul3(x)), MulD(Xtime(x)), Mul9(x)) == 0
    ensures Xor4(MulE(x), MulB(x), MulD(Mul3(x)), Mul9(Xtime(x))) == 0
  {
  }

  lemma XorTurn(a: bv8, b: bv8, c: bv8, d: bv8)
    ensures Xor4(a, b, c, d) == Xor4(d, a, b, c)
  {
    hide Xor;
    XorComm(c, d);
    XorComm(a, d);
    XorSwap(a, b, d, c);
  }

  lemma XorPairs(a: bv8, b: bv8, c: bv8, d: bv8, a': bv8, b': bv8, c': bv8, d': bv8)
    ensures Xor(Xor4(a, b, c, d), Xor4(a', b', c', d')) == Xor4(Xor(a, a'), Xor(b, b'), Xor(c, c'), Xor(d, d'))
  {
    hide Xor;
    XorSwap(Xor(a, b), Xor(c, d), Xor(a', b'), Xor(c', d'));
    XorSwap(a, b, a', b');
    XorSwap(c, d, c', d');
  }

  /** Sums of sums, by rows and by columns. */
  lemma Transpose(a0: bv8, a1: bv8, a2: bv8, a3: bv8, b0: bv8, b1: bv8, b2: bv8, b3: bv8,
                  c0: bv8, c1: bv8, c2: bv8, c3: bv8, d0: bv8, d1: bv8, d2: bv8, d3: bv8)
    ensures Xor4(Xor4(a0, a1, a2, a3), Xor4(b0, b1, b2, b3), Xor4(c0, c1, c2, c3), Xor4(d0, d1, d2, d3))
         == Xor4(Xor4(a0, b3, c2, d1), Xor4(a1, b0, c3, d2), Xor4(a2, b1, c0, d3), Xor4(a3, b2, c1, d0))
  {
    hide Xor;
    XorTurn(b0, b1, b2, b3);
    XorTurn(c0, c1, c2, c3);
    XorTurn(c3, c0, c1, c2);
    XorTurn(d1, d2, d3, d0);
    XorPairs(a0, a1, a2, a3, b3, b0, b1, b2);
    XorPairs(c2, c3, c0, c1, d1, d2, d3, d0);
    XorPairs(Xor(a0, b3), Xor(a1, b0), Xor(a2, b1), Xor(a3, b2),
             Xor(c2, d1), Xor(c3, d2), Xor(c0, d3), Xor(c1, d0));
  }

  lemma MixByteInverts(a: bv8, b: bv8, c: bv8, d: bv8)
    ensures InvMixByte(MixByte(a, b, c, d), MixByte(b, c, d, a), MixByte(c, d, a, b), MixByte(d, a, b, c)) == a
  {
    hide Mul3, Mul9, MulB, MulD, MulE, Xtime, Xor4;
    MulXor4(Xtime(a), Mul3(b), c, d);
    MulXor4(Xtime(b), Mul3(c), d, a);
    MulXor4(Xtime(c), Mul3(d), a, b);
    MulXor4(Xtime(d), Mul3(a), b, c);
    Transpose(MulE(Xtime(a)), MulE(Mul3(b)), MulE(c), MulE(d),
              MulB(Xtime(b)), MulB(Mul3(c)), MulB(d), MulB(a),
              MulD(Xtime(c)), MulD(Mul3(d)), MulD(a), MulD(b),
              Mul9(Xtime(d)), Mul9(Mul3(a)), Mul9(b), Mul9(c));
    MixEntries(a);
    MixEntries(b);
    MixEntries(c);
    MixEntries(d);
    XorZeros(a);
  }

  lemma XorZeros(a: bv8)
    ensures Xor4(a, 0, 0, 0) == a
  {
  }

  /** InvMixColumns undoes MixColumns. */
  lemma MixInverts(c: Col)
    ensures InvMixCol(MixCol(c)) == c
  {
    hide MixByte, InvMixByte;
    MixByteInverts(c.b0, c.b1, c.b2, c.b3);
    MixByteInverts(c.b1, c.b2, c.b3, c.b0);
    MixByteInverts(c.b2, c.b3, c.b0, c.b1);
    MixByteInverts(c.b3, c.b0, c.b1, c.b2);
  }

  lemma InvMixByteLinear(a: bv8, b: bv8, c: bv8, d: bv8, a': bv8, b': bv8, c': bv8, d': bv8)
    ensures InvMixByte(Xor(a, a'), Xor(b, b'), Xor(c, c'), Xor(d, d'))
         == Xor(InvMixByte(a, b, c, d), InvMixByte(a', b', c', d'))
  {
    hide Mul9, MulB, MulD, MulE, Xor;
    MulXor(a, a');
    MulXor(b, b');
    MulXor(c, c');
    MulXor(d, d');
    XorSwap(MulE(a), MulE(a'), MulB(b), MulB(b'));
    XorSwap(MulD(c), MulD(c'), Mul9(d), Mul9(d'));
    XorSwap(Xor(MulE(a), MulB(b)), Xor(MulE(a'), MulB(b')), Xor(MulD(c), Mul9(d)), Xor(MulD(c'), Mul9(d')));
  }

  /** InvMixColumns is linear, so it may be moved across the key addition. */
  lemma InvMixLinear(a: Col, b: Col)
    ensures InvMixCol(XorCol(a, b)) == XorCol(InvMixCol(a), InvMixCol(b))
  {
    hide InvMixByte;
    InvMixByteLinear(a.b0, a.b1, a.b2, a.b3, b.b0, b.b1, b.b2, b.b3);
    InvMixByteLinear(a.b1, a.b2, a.b3, a.b0, b.b1, b.b2, b.b3, b.b0);
    InvMixByteLinear(a.b2, a.b3, a.b0, a.b1, b.b2, b.b3, b.b0, b.b1);
    InvMixByteLinear(a.b3, a.b0, a.b1, a.b2, b.b3, b.b0, b.b1, b.b2);
  }

  // The lookup tables, by their definitions from the two S-boxes.
  function Te0(x: bv8): bv32 { var s := Sub(x); Pack(Col(Xtime(s), s, s, Mul3(s))) }
  function Te1(x: bv8): bv32 { var s := Sub(x); Pack(Col(Mul3(s), Xtime(s), s, s)) }
  function Te2(x: bv8): bv32 { var s := Sub(x); Pack(Col(s, Mul3(s), Xtime(s), s)) }
  function Te3(x: bv8): bv32 { var s := Sub(x); Pack(Col(s, s, Mul3(s), Xtime(s))) }
  function Te4(x: bv8): bv32 { var s := Sub(x); Pack(Col(s, s, s, s)) }
  function Td0(x: bv8): bv32 { var s := InvSub(x); Pack(Col(MulE(s), Mul9(s), MulD(s), MulB(s))) }
  function Td1(x: bv8): bv32 { var s := InvSub(x); Pack(Col(MulB(s), MulE(s), Mul9(s), MulD(s))) }
  function Td2(x: bv8): bv32 { var s := InvSub(x); Pack(Col(MulD(s), MulB(s), MulE(s), Mul9(s))) }
  function Td3(x: bv8): bv32 { var s := InvSub(x); Pack(Col(Mul9(s), MulD(s), MulB(s), MulE(s))) }
  function Td4(x: bv8): bv32 { var s := InvSub(x); Pack(Col(s, s, s, s)) }

  function Xor32(v: bv32, w: bv32): bv32 { v ^ w }

  /** Four table entries and a round key word. */
  function Xor5(a: bv32, b: bv32, c: bv32, d: bv32, k: bv32): bv32 {
    Xor32(Xor32(Xor32(a, b), Xor32(c, d)), k)
  }

  /** Adding packed words is adding columns. */
  lemma XorPacked(a: Col, b: Col, c: Col, d: Col, k: bv32)
    ensures Unpack(Xor5(Pack(a), Pack(b), Pack(c), Pack(d), k))
         == XorCol(XorCol(XorCol(a, b), XorCol(c, d)), Unpack(k))
  {
    hide Pack, Unpack, XorCol, Xor32;
    var ab, cd := Xor32(Pack(a), Pack(b)), Xor32(Pack(c), Pack(d));
    UnpackXor(Xor32(ab, cd), k);
    UnpackXor(ab, cd);
    UnpackXor(Pack(a), Pack(b));
    UnpackXor(Pack(c), Pack(d));
    UnpackPack(a);
    UnpackPack(b);
    UnpackPack(c);
    UnpackPack(d);
  }

  /** One column of a table round is SubBytes and MixColumns of its four bytes, plus the key. */
  lemma EncryptColumn(a: bv8, b: bv8, c: bv8, d: bv8, k: bv32)
    ensures Unpack(Xor5(Te0(a), Te1(b), Te2(c), Te3(d), k))
         == XorCol(MixCol(Col(Sub(a), Sub(b), Sub(c), Sub(d))), Unpack(k))
  {
    hide Pack, Unpack, Sub, Xtime, Mul3, Xor, Xor5;
    var a', b', c', d' := Sub(a), Sub(b), Sub(c), Sub(d);
    XorPacked(Col(Xtime(a'), a', a', Mul3(a')), Col(Mul3(b'), Xtime(b'), b', b'),
              Col(c', Mul3(c'), Xtime(c'), c'), Col(d', d', Mul3(d'), Xtime(d')), k);
    XorTurn(Xtime(b'), Mul3(c'), d', a');
    XorTurn(Xtime(c'), Mul3(d'), a', b');
    XorTurn(b', Xtime(c'), Mul3(d'), a');
    XorTurn(Mul3(a'), b', c', Xtime(d'));
  }

  /** One column of a table round of decryption, likewise. */
  lemma DecryptColumn(a: bv8, b: bv8, c: bv8, d: bv8, k: bv32)
    ensures Unpack(Xor5(Td0(a), Td1(b), Td2(c), Td3(d), k))
         == XorCol(InvMixCol(Col(InvSub(a), InvSub(b), InvSub(c), InvSub(d))), Unpack(k))
  {
    hide Pack, Unpack, InvSub, Mul9, MulB, MulD, MulE, Xor, Xor5;
    var a', b', c', d' := InvSub(a), InvSub(b), InvSub(c), InvSub(d);
    XorPacked(Col(MulE(a'), Mul9(a'), MulD(a'), MulB(a')), Col(MulB(b'), MulE(b'), Mul9(b'), MulD(b')),
              Col(MulD(c'), MulB(c'), MulE(c'), Mul9(c')), Col(Mul9(d'), MulD(d'), MulB(d'), MulE(d')), k);
    XorTurn(MulE(b'), MulB(c'), MulD(d'), Mul9(a'));
    XorTurn(MulE(c'), MulB(d'), MulD(a'), Mul9(b'));
    XorTurn(Mul9(b'), MulE(c'), MulB(d'), MulD(a'));
    XorTurn(MulB(a'), MulD(b'), Mul9(c'), MulE(d'));
  }

  // Masked entries of the byte-replicated tables pick one byte each.
  function Masked(a: bv32, b: bv32, c: bv32, d: bv32, k: bv32): bv32 {
    Xor5(a & 0xff00_0000, b & 0x00ff_0000, c & 0x0000_ff00, d & 0x0000_00ff, k)
  }

  lemma MaskByte(s: bv8)
    ensures var w := Pack(Col(s, s, s, s));
            && w & 0xff00_0000 == Pack(Col(s, 0, 0, 0)) && w & 0x00ff_0000 == Pack(Col(0, s, 0, 0))
            && w & 0x0000_ff00 == Pack(Col(0, 0, s, 0)) && w & 0x0000_00ff == Pack(Col(0, 0, 0, s))
  {
  }

  lemma MaskedColumn(a: bv8, b: bv8, c: bv8, d: bv8, k: bv32)
    ensures Unpack(Masked(Pack(Col(a, a, a, a)), Pack(Col(b, b, b, b)), Pack(Col(c, c, c, c)),
                          Pack(Col(d, d, d, d)), k))
         == XorCol(Col(a, b, c, d), Unpack(k))
  {
    hide Pack, Unpack, Xor, Xor5;
    MaskByte(a);
    MaskByte(b);
    MaskByte(c);
    MaskByte(d);
    XorPacked(Col(a, 0, 0, 0), Col(0, b, 0, 0), Col(0, 0, c, 0), Col(0, 0, 0, d), k);
    OneOfFour(a);
    OneOfFour(b);
    OneOfFour(c);
    OneOfFour(d);
  }

  lemma OneOfFour(a: bv8)
    ensures Xor(Xor(a, 0), Xor(0, 0)) == a && Xor(Xor(0, a), Xor(0, 0)) == a
    ensures Xor(Xor(0, 0), Xor(a, 0)) == a && Xor(Xor(0, 0), Xor(0, a)) == a
  {
  }

  // The transformations of FIPS 197 on the state.
  function SubCol(c: Col): Col { Col(Sub(c.b0), Sub(c.b1), Sub(c.b2), Sub(c.b3)) }
  function InvSubCol(c: Col): Col { Col(InvSub(c.b0), InvSub(c.b1), InvSub(c.b2), InvSub(c.b3)) }

  function SubBytes(s: State): State { State(SubCol(s.c0), SubCol(s.c1), SubCol(s.c2), SubCol(s.c3)) }
  function InvSubBytes(s: State): State { State(InvSubCol(s.c0), InvSubCol(s.c1), InvSubCol(s.c2), InvSubCol(s.c3)) }

  function ShiftRows(s: State): State {
    State(Col(s.c0.b0, s.c1.b1, s.c2.b2, s.c3.b3), Col(s.c1.b0, s.c2.b1, s.c3.b2, s.c0.b3),
          Col(s.c2.b0, s.c3.b1, s.c0.b2, s.c1.b3), Col(s.c3.b0, s.c0.b1, s.c1.b2, s.c2.b3))
  }

  function InvShiftRows(s: State): State {
    State(Col(s.c0.b0, s.c3.b1, s.c2.b2, s.c1.b3), Col(s.c1.b0, s.c0.b1, s.c3.b2, s.c2.b3),
          Col(s.c2.b0, s.c1.b1, s.c0.b2, s.c3.b3), Col(s.c3.b0, s.c2.b1, s.c1.b2, s.c0.b3))
  }

  function MixColumns(s: State): State { State(MixCol(s.c0), MixCol(s.c1), MixCol(s.c2), MixCol(s.c3)) }
  function InvMixColumns(s: State): State {
    State(InvMixCol(s.c0), InvMixCol(s.c1), InvMixCol(s.c2), InvMixCol(s.c3))
  }

  function AddRoundKey(s: State, k: State): State {
    State(XorCol(s.c0, k.c0), XorCol(s.c1, k.c1), XorCol(s.c2, k.c2), XorCol(s.c3, k.c3))
  }

  lemma SubBytesInverts(s: State)
    ensures InvSubBytes(SubBytes(s)) == s
  {
    hide Sub, InvSub;
    SubColInverts(s.c0);
    SubColInverts(s.c1);
    SubColInverts(s.c2);
    SubColInverts(s.c3);
  }

  lemma SubColInverts(c: Col)
    ensures InvSubCol(SubCol(c)) == c
  {
    hide Sub, InvSub;
    SubInverts(c.b0);
    SubInverts(c.b1);
    SubInverts(c.b2);
    SubInverts(c.b3);
  }

  lemma AddRoundKeyInverts(s: State, k: State)
    ensures AddRoundKey(AddRoundKey(s, k), k) == s
  {
    hide XorCol;
    XorColTwice(s.c0, k.c0);
    XorColTwice(s.c1, k.c1);
    XorColTwice(s.c2, k.c2);
    XorColTwice(s.c3, k.c3);
  }

  lemma XorColTwice(a: Col, b: Col)
    ensures XorCol(XorCol(a, b), b) == a
  {
  }

  lemma MixColumnsInverts(s: State)
    ensures InvMixColumns(MixColumns(s)) == s
  {
    hide MixCol, InvMixCol;
    MixInverts(s.c0);
    MixInverts(s.c1);
    MixInverts(s.c2);
    MixInverts(s.c3);
  }

  lemma InvMixColumnsLinear(s: State, k: State)
    ensures InvMixColumns(AddRoundKey(s, k)) == AddRoundKey(InvMixColumns(s), InvMixColumns(k))
  {
    hide InvMixCol, XorCol;
    InvMixLinear(s.c0, k.c0);
    InvMixLinear(s.c1, k.c1);
    InvMixLinear(s.c2, k.c2);
    InvMixLinear(s.c3, k.c3);
  }

  // A key schedule gives the round keys of rounds 0 to `nr`.
  type Schedule = nat -> State

  /** The state after the initial key addition and `r` full rounds, section 5.1 of FIPS 197. */
  ghost function EncRounds(x: State, w: Schedule, r: nat): State {
    if r == 0 then AddRoundKey(x, w(0))
    else AddRoundKey(MixColumns(ShiftRows(SubBytes(EncRounds(x, w, r - 1)))), w(r))
  }

  /** The cipher of section 5.1 of FIPS 197. */
  ghost function Cipher(x: State, w: Schedule, nr: nat): State
    requires nr > 0
  {
    AddRoundKey(ShiftRows(SubBytes(EncRounds(x, w, nr - 1))), w(nr))
  }

  /** The state of the inverse cipher before it undoes round `r` down from `nr`, section 5.3. */
  ghost function InvRounds(y: State, w: Schedule, nr: nat, r: nat): State
    requires 0 < r <= nr
    decreases nr - r
  {
    if r == nr then AddRoundKey(y, w(nr))
    else InvMixColumns(AddRoundKey(InvSubBytes(InvShiftRows(InvRounds(y, w, nr, r + 1))), w(r)))
  }

  /** The inverse cipher of section 5.3 of FIPS 197. */
  ghost function InvCipher(y: State, w: Schedule, nr: nat): State
    requires nr > 0
  {
    AddRoundKey(InvSubBytes(InvShiftRows(InvRounds(y, w, nr, 1))), w(0))
  }

  /** The equivalent inverse cipher of section 5.3.5, with its own schedule in the order it is used. */
  ghost function EqRounds(y: State, dw: Schedule, j: nat): State {
    if j == 0 then AddRoundKey(y, dw(0))
    else AddRoundKey(InvMixColumns(InvShiftRows(InvSubBytes(EqRounds(y, dw, j - 1)))), dw(j))
  }

  ghost function EqInvCipher(y: State, dw: Schedule, nr: nat): State
    requires nr > 0
  {
    AddRoundKey(InvShiftRows(InvSubBytes(EqRounds(y, dw, nr - 1))), dw(nr))
  }

  /** The decryption schedule: round keys reversed, the inner ones through InvMixColumns. */
  ghost function DecSchedule(w: Schedule, nr: nat): Schedule {
    (j: nat) => if j == 0 || j >= nr then w(if j > nr then 0 else nr - j) else InvMixColumns(w(nr - j))
  }

  /** The inverse cipher retraces the cipher round by round. */
  lemma {:induction false} InvRoundsRetrace(x: State, w: Schedule, nr: nat, r: nat)
    requires 0 < r <= nr
    ensures InvRounds(Cipher(x, w, nr), w, nr, r) == ShiftRows(SubBytes(EncRounds(x, w, r - 1)))
    decreases nr - r
  {
    hide SubBytes, InvSubBytes, MixColumns, InvMixColumns, AddRoundKey;
    if r == nr {
      AddRoundKeyInverts(ShiftRows(SubBytes(EncRounds(x, w, nr - 1))), w(nr));
    } else {
      InvRoundsRetrace(x, w, nr, r + 1);
      var e, e' := EncRounds(x, w, r - 1), EncRounds(x, w, r);
      SubBytesInverts(e');
      AddRoundKeyInverts(MixColumns(ShiftRows(SubBytes(e))), w(r));
      MixColumnsInverts(ShiftRows(SubBytes(e)));
    }
  }

  /** The inverse cipher undoes the cipher. */
  lemma InvCipherInverts(x: State, w: Schedule, nr: nat)
    requires nr > 0
    ensures InvCipher(Cipher(x, w, nr), w, nr) == x
  {
    hide SubBytes, InvSubBytes, AddRoundKey, InvRounds;
    InvRoundsRetrace(x, w, nr, 1);
    SubBytesInverts(EncRounds(x, w, 0));
    AddRoundKeyInverts(x, w(0));
  }

  /** The equivalent inverse cipher goes through the same states as the inverse cipher. */
  lemma {:induction false} EqRoundsMatch(y: State, w: Schedule, nr: nat, j: nat)
    requires j < nr
    ensures EqRounds(y, DecSchedule(w, nr), j) == InvRounds(y, w, nr, nr - j)
    decreases j
  {
    hide InvSub, InvMixColumns, AddRoundKey;
    if j == 0 {
    } else {
      EqRoundsMatch(y, w, nr, j - 1);
      var d := InvRounds(y, w, nr, nr - j + 1);
      InvMixColumnsLinear(InvSubBytes(InvShiftRows(d)), w(nr - j));
    }
  }

  /** The equivalent inverse cipher under the decryption schedule is the inverse cipher. */
  lemma EqInvCipherMatches(y: State, w: Schedule, nr: nat)
    requires nr > 0
    ensures EqInvCipher(y, DecSchedule(w, nr), nr) == InvCipher(y, w, nr)
  {
    hide InvSub, InvMixColumns, AddRoundKey;
    EqRoundsMatch(y, w, nr, nr - 1);
  }

  /** Decryption under the decryption schedule inverts encryption under the encryption schedule. */
  lemma DecryptInvertsEncrypt(x: State, w: Schedule, nr: nat)
    requires nr > 0
    ensures EqInvCipher(Cipher(x, w, nr), DecSchedule(w, nr), nr) == x
  {
    hide Cipher, InvCipher, EqInvCipher;
    EqInvCipherMatches(Cipher(x, w, nr), w, nr);
    InvCipherInverts(x, w, nr);
  }

  /** The ciphers only read the round keys up to `nr`. */
  lemma {:induction false} RoundsAgree(x: State, w: Schedule, w': Schedule, r: nat)
    requires forall j :: 0 <= j <= r ==> w(j) == w'(j)
    ensures EncRounds(x, w, r) == EncRounds(x, w', r) && EqRounds(x, w, r) == EqRounds(x, w', r)
    decreases r
  {
    hide SubBytes, InvSubBytes, ShiftRows, InvShiftRows, MixColumns, InvMixColumns, AddRoundKey;
    if r == 0 {
    } else {
      RoundsAgree(x, w, w', r - 1);
    }
  }

  lemma CiphersAgree(x: State, w: Schedule, w': Schedule, nr: nat)
    requires nr > 0 && forall j :: 0 <= j <= nr ==> w(j) == w'(j)
    ensures Cipher(x, w, nr) == Cipher(x, w', nr) && EqInvCipher(x, w, nr) == EqInvCipher(x, w', nr)
  {
    hide SubBytes, InvSubBytes, ShiftRows, InvShiftRows, AddRoundKey, EncRounds, EqRounds;
    RoundsAgree(x, w, w', nr - 1);
  }
}

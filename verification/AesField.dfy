/** Arithmetic in GF(2^8), the S-box of FIPS 197 and the lookup tables built from it. */
module AesField {
  function Pick(y: bv8, a0: bv8, a1: bv8, a2: bv8, a3: bv8, a4: bv8, a5: bv8, a6: bv8, a7: bv8, a8: bv8, a9: bv8,
                a10: bv8, a11: bv8, a12: bv8, a13: bv8, a14: bv8, a15: bv8): bv8 {
    if y == 0 then a0
    else if y == 1 then a1
    else if y == 2 then a2
    else if y == 3 then a3
    else if y == 4 then a4
    else if y == 5 then a5
    else if y == 6 then a6
    else if y == 7 then a7
    else if y == 8 then a8
    else if y == 9 then a9
    else if y == 10 then a10
    else if y == 11 then a11
    else if y == 12 then a12
    else if y == 13 then a13
    else if y == 14 then a14
    else a15
  }

  /** The S-box, Figure 7 of FIPS 197. */
  function Sub(x: bv8): bv8 {
    var y := x & 0xf;
    if x < 0x10 then
      Pick(y, 0x63, 0x7c, 0x77, 0x7b, 0xf2, 0x6b, 0x6f, 0xc5, 0x30, 0x01, 0x67, 0x2b, 0xfe, 0xd7, 0xab, 0x76)
    else if x < 0x20 then
      Pick(y, 0xca, 0x82, 0xc9, 0x7d, 0xfa, 0x59, 0x47, 0xf0, 0xad, 0xd4, 0xa2, 0xaf, 0x9c, 0xa4, 0x72, 0xc0)
    else if x < 0x30 then
      Pick(y, 0xb7, 0xfd, 0x93, 0x26, 0x36, 0x3f, 0xf7, 0xcc, 0x34, 0xa5, 0xe5, 0xf1, 0x71, 0xd8, 0x31, 0x15)
    else if x < 0x40 then
      Pick(y, 0x04, 0xc7, 0x23, 0xc3, 0x18, 0x96, 0x05, 0x9a, 0x07, 0x12, 0x80, 0xe2, 0xeb, 0x27, 0xb2, 0x75)
    else if x < 0x50 then
      Pick(y, 0x09, 0x83, 0x2c, 0x1a, 0x1b, 0x6e, 0x5a, 0xa0, 0x52, 0x3b, 0xd6, 0xb3, 0x29, 0xe3, 0x2f, 0x84)
    else if x < 0x60 then
      Pick(y, 0x53, 0xd1, 0x00, 0xed, 0x20, 0xfc, 0xb1, 0x5b, 0x6a, 0xcb, 0xbe, 0x39, 0x4a, 0x4c, 0x58, 0xcf)
    else if x < 0x70 then
      Pick(y, 0xd0, 0xef, 0xaa, 0xfb, 0x43, 0x4d, 0x33, 0x85, 0x45, 0xf9, 0x02, 0x7f, 0x50, 0x3c, 0x9f, 0xa8)
    else if x < 0x80 then
      Pick(y, 0x51, 0xa3, 0x40, 0x8f, 0x92, 0x9d, 0x38, 0xf5, 0xbc, 0xb6, 0xda, 0x21, 0x10, 0xff, 0xf3, 0xd2)
    else if x < 0x90 then
      Pick(y, 0xcd, 0x0c, 0x13, 0xec, 0x5f, 0x97, 0x44, 0x17, 0xc4, 0xa7, 0x7e, 0x3d, 0x64, 0x5d, 0x19, 0x73)
    else if x < 0xa0 then
      Pick(y, 0x60, 0x81, 0x4f, 0xdc, 0x22, 0x2a, 0x90, 0x88, 0x46, 0xee, 0xb8, 0x14, 0xde, 0x5e, 0x0b, 0xdb)
    else if x < 0xb0 then
      Pick(y, 0xe0, 0x32, 0x3a, 0x0a, 0x49, 0x06, 0x24, 0x5c, 0xc2, 0xd3, 0xac, 0x62, 0x91, 0x95, 0xe4, 0x79)
    else if x < 0xc0 then
      Pick(y, 0xe7, 0xc8, 0x37, 0x6d, 0x8d, 0xd5, 0x4e, 0xa9, 0x6c, 0x56, 0xf4, 0xea, 0x65, 0x7a, 0xae, 0x08)
    else if x < 0xd0 then
      Pick(y, 0xba, 0x78, 0x25, 0x2e, 0x1c, 0xa6, 0xb4, 0xc6, 0xe8, 0xdd, 0x74, 0x1f, 0x4b, 0xbd, 0x8b, 0x8a)
    else if x < 0xe0 then
      Pick(y, 0x70, 0x3e, 0xb5, 0x66, 0x48, 0x03, 0xf6, 0x0e, 0x61, 0x35, 0x57, 0xb9, 0x86, 0xc1, 0x1d, 0x9e)
    else if x < 0xf0 then
      Pick(y, 0xe1, 0xf8, 0x98, 0x11, 0x69, 0xd9, 0x8e, 0x94, 0x9b, 0x1e, 0x87, 0xe9, 0xce, 0x55, 0x28, 0xdf)
    else Pick(y, 0x8c, 0xa1, 0x89, 0x0d, 0xbf, 0xe6, 0x42, 0x68, 0x41, 0x99, 0x2d, 0x0f, 0xb0, 0x54, 0xbb, 0x16)
  }

  /** The inverse S-box, Figure 14 of FIPS 197. */
  function InvSub(x: bv8): bv8 {
    var y := x & 0xf;
    if x < 0x10 then
      Pick(y, 0x52, 0x09, 0x6a, 0xd5, 0x30, 0x36, 0xa5, 0x38, 0xbf, 0x40, 0xa3, 0x9e, 0x81, 0xf3, 0xd7, 0xfb)
    else if x < 0x20 then
      Pick(y, 0x7c, 0xe3, 0x39, 0x82, 0x9b, 0x2f, 0xff, 0x87, 0x34, 0x8e, 0x43, 0x44, 0xc4, 0xde, 0xe9, 0xcb)
    else if x < 0x30 then
      Pick(y, 0x54, 0x7b, 0x94, 0x32, 0xa6, 0xc2, 0x23, 0x3d, 0xee, 0x4c, 0x95, 0x0b, 0x42, 0xfa, 0xc3, 0x4e)
    else if x < 0x40 then
      Pick(y, 0x08, 0x2e, 0xa1, 0x66, 0x28, 0xd9, 0x24, 0xb2, 0x76, 0x5b, 0xa2, 0x49, 0x6d, 0x8b, 0xd1, 0x25)
    else if x < 0x50 then
      Pick(y, 0x72, 0xf8, 0xf6, 0x64, 0x86, 0x68, 0x98, 0x16, 0xd4, 0xa4, 0x5c, 0xcc, 0x5d, 0x65, 0xb6, 0x92)
    else if x < 0x60 then
      Pick(y, 0x6c, 0x70, 0x48, 0x50, 0xfd, 0xed, 0xb9, 0xda, 0x5e, 0x15, 0x46, 0x57, 0xa7, 0x8d, 0x9d, 0x84)
    else if x < 0x70 then
      Pick(y, 0x90, 0xd8, 0xab, 0x00, 0x8c, 0xbc, 0xd3, 0x0a, 0xf7, 0xe4, 0x58, 0x05, 0xb8, 0xb3, 0x45, 0x06)
    else if x < 0x80 then
      Pick(y, 0xd0, 0x2c, 0x1e, 0x8f, 0xca, 0x3f, 0x0f, 0x02, 0xc1, 0xaf, 0xbd, 0x03, 0x01, 0x13, 0x8a, 0x6b)
    else if x < 0x90 then
      Pick(y, 0x3a, 0x91, 0x11, 0x41, 0x4f, 0x67, 0xdc, 0xea, 0x97, 0xf2, 0xcf, 0xce, 0xf0, 0xb4, 0xe6, 0x73)
    else if x < 0xa0 then
      Pick(y, 0x96, 0xac, 0x74, 0x22, 0xe7, 0xad, 0x35, 0x85, 0xe2, 0xf9, 0x37, 0xe8, 0x1c, 0x75, 0xdf, 0x6e)
    else if x < 0xb0 then
      Pick(y, 0x47, 0xf1, 0x1a, 0x71, 0x1d, 0x29, 0xc5, 0x89, 0x6f, 0xb7, 0x62, 0x0e, 0xaa, 0x18, 0xbe, 0x1b)
    else if x < 0xc0 then
      Pick(y, 0xfc, 0x56, 0x3e, 0x4b, 0xc6, 0xd2, 0x79, 0x20, 0x9a, 0xdb, 0xc0, 0xfe, 0x78, 0xcd, 0x5a, 0xf4)
    else if x < 0xd0 then
      Pick(y, 0x1f, 0xdd, 0xa8, 0x33, 0x88, 0x07, 0xc7, 0x31, 0xb1, 0x12, 0x10, 0x59, 0x27, 0x80, 0xec, 0x5f)
    else if x < 0xe0 then
      Pick(y, 0x60, 0x51, 0x7f, 0xa9, 0x19, 0xb5, 0x4a, 0x0d, 0x2d, 0xe5, 0x7a, 0x9f, 0x93, 0xc9, 0x9c, 0xef)
    else if x < 0xf0 then
      Pick(y, 0xa0, 0xe0, 0x3b, 0x4d, 0xae, 0x2a, 0xf5, 0xb0, 0xc8, 0xeb, 0xbb, 0x3c, 0x83, 0x53, 0x99, 0x61)
    else Pick(y, 0x17, 0x2b, 0x04, 0x7e, 0xba, 0x77, 0xd6, 0x26, 0xe1, 0x69, 0x14, 0x63, 0x55, 0x21, 0x0c, 0x7d)
  }

  /** The inverse S-box undoes the S-box. */
  lemma SubInverts(x: bv8)
    ensures InvSub(Sub(x)) == x
  {
    if x < 0x80 {
      SubInvertsLow(x);
    } else {
      SubInvertsHigh(x);
    }
    hide Sub, InvSub;
  }

  lemma SubInvertsLow(x: bv8)
    requires x < 0x80
    ensures InvSub(Sub(x)) == x
  {
  }

  lemma SubInvertsHigh(x: bv8)
    requires x >= 0x80
    ensures InvSub(Sub(x)) == x
  {
  }

  /** Multiplication by x, section 4.2.1 of FIPS 197: shift, and reduce if the top bit falls out. */
  function Xtime(x: bv8): bv8 {
    (x << 1) ^ ((x >> 7) * 0x1b)
  }

  /** Addition in the field. */
  function Xor(x: bv8, y: bv8): bv8 { x ^ y }

  function Xor4(a: bv8, b: bv8, c: bv8, d: bv8): bv8 { Xor(Xor(a, b), Xor(c, d)) }

  function Mul4(x: bv8): bv8 { Xtime(Xtime(x)) }
  function Mul8(x: bv8): bv8 { Xtime(Mul4(x)) }
  function Mul3(x: bv8): bv8 { Xor(Xtime(x), x) }
  function Mul9(x: bv8): bv8 { Xor(Mul8(x), x) }
  function MulB(x: bv8): bv8 { Xor(Mul8(x), Xor(Xtime(x), x)) }
  function MulD(x: bv8): bv8 { Xor(Mul8(x), Xor(Mul4(x), x)) }
  function MulE(x: bv8): bv8 { Xor(Mul8(x), Xor(Mul4(x), Xtime(x))) }

  lemma XorSwap(a: bv8, b: bv8, c: bv8, d: bv8)
    ensures Xor(Xor(a, b), Xor(c, d)) == Xor(Xor(a, c), Xor(b, d))
  {
    assert (a ^ b) ^ (c ^ d) == (a ^ c) ^ (b ^ d);
  }

  lemma XorComm(a: bv8, b: bv8)
    ensures Xor(a, b) == Xor(b, a)
  {
    assert a ^ b == b ^ a;
  }

  lemma XtimeXor(x: bv8, y: bv8)
    ensures Xtime(Xor(x, y)) == Xor(Xtime(x), Xtime(y))
  {
  }

  /** Multiplying by a power of x distributes over addition. */
  lemma ShiftXor(x: bv8, y: bv8)
    ensures Xtime(Xor(x, y)) == Xor(Xtime(x), Xtime(y))
    ensures Mul4(Xor(x, y)) == Xor(Mul4(x), Mul4(y))
    ensures Mul8(Xor(x, y)) == Xor(Mul8(x), Mul8(y))
  {
    hide Xtime, Xor;
    XtimeXor(x, y);
    XtimeXor(Xtime(x), Xtime(y));
    XtimeXor(Mul4(x), Mul4(y));
  }

  /** So does multiplying by the entries of the inverse mixing matrix. */
  lemma MulXor(x: bv8, y: bv8)
    ensures Mul9(Xor(x, y)) == Xor(Mul9(x), Mul9(y)) && MulB(Xor(x, y)) == Xor(MulB(x), MulB(y))
    ensures MulD(Xor(x, y)) == Xor(MulD(x), MulD(y)) && MulE(Xor(x, y)) == Xor(MulE(x), MulE(y))
  {
    hide Xtime, Mul4, Mul8, Xor;
    ShiftXor(x, y);
    XorSwap(Mul8(x), Mul8(y), x, y);
    XorSwap(Xtime(x), Xtime(y), x, y);
    XorSwap(Mul4(x), Mul4(y), x, y);
    XorSwap(Mul4(x), Mul4(y), Xtime(x), Xtime(y));
    XorSwap(Mul8(x), Mul8(y), Xor(Xtime(x), x), Xor(Xtime(y), y));
    XorSwap(Mul8(x), Mul8(y), Xor(Mul4(x), x), Xor(Mul4(y), y));
    XorSwap(Mul8(x), Mul8(y), Xor(Mul4(x), Xtime(x)), Xor(Mul4(y), Xtime(y)));
  }

  /** Multiplication in the field, bit by bit. */
  function Times(x: bv8, y: bv8): bv8 {
    var x1 := Xtime(x);
    var x2 := Xtime(x1);
    var x3 := Xtime(x2);
    var x4 := Xtime(x3);
    var x5 := Xtime(x4);
    var x6 := Xtime(x5);
    var x7 := Xtime(x6);
    (if y & 0x01 == 0 then 0 else x) ^ (if y & 0x02 == 0 then 0 else x1)
    ^ (if y & 0x04 == 0 then 0 else x2) ^ (if y & 0x08 == 0 then 0 else x3)
    ^ (if y & 0x10 == 0 then 0 else x4) ^ (if y & 0x20 == 0 then 0 else x5)
    ^ (if y & 0x40 == 0 then 0 else x6) ^ (if y & 0x80 == 0 then 0 else x7)
  }

  function RotL(x: bv8, n: bv8): bv8
    requires n <= 8
  {
    (x << n) | (x >> (8 - n))
  }

  /** The affine map of section 5.1.1 of FIPS 197. */
  function Affine(y: bv8): bv8 {
    y ^ RotL(y, 1) ^ RotL(y, 2) ^ RotL(y, 3) ^ RotL(y, 4) ^ 0x63
  }

  function InvAffine(s: bv8): bv8 { RotL(s, 1) ^ RotL(s, 3) ^ RotL(s, 6) ^ 0x05 }

  lemma AffineInverts(s: bv8)
    ensures Affine(InvAffine(s)) == s
  {
  }

  /** The S-box is the affine map after inversion in the field, with 0 as its own inverse. */
  lemma SubIsAffineOfInverse(x: bv8) returns (y: bv8)
    ensures Sub(x) == Affine(y)
    ensures if x == 0 then y == 0 else Times(x, y) == 1
  {
    hide Sub, Times, Affine, InvAffine;
    y := InvAffine(Sub(x));
    AffineInverts(Sub(x));
    if x < 0x80 {
      InverseLow(x);
    } else {
      InverseHigh(x);
    }
  }

  lemma InverseLow(x: bv8)
    requires x < 0x80
    ensures var y := InvAffine(Sub(x)); if x == 0 then y == 0 else Times(x, y) == 1
  {
  }

  lemma InverseHigh(x: bv8)
    requires x >= 0x80
    ensures Times(x, InvAffine(Sub(x))) == 1
  {
  }
}

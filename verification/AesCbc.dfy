/** Cipher block chaining, section 6.2 of NIST SP 800-38A, with the code's treatment of a short last block. */
module AesCbc {
  import opened AesField
  import opened Aes
  import opened AesCode
  import opened Wire

  const BLOCK := 16

  type Block = b: seq<bv8> | |b| == BLOCK witness seq(BLOCK, _ => 0)

  function XorBlock(a: Block, b: Block): (r: Block)
    ensures forall i :: 0 <= i < BLOCK ==> r[i] == Xor(a[i], b[i])
  {
    seq(BLOCK, i requires 0 <= i < BLOCK => Xor(a[i], b[i]))
  }

  /** A short block filled up with zeros. */
  function Pad(data: seq<bv8>): (r: Block)
    requires |data| <= BLOCK
    ensures forall i :: 0 <= i < BLOCK ==> r[i] == if i < |data| then data[i] else 0
  {
    seq(BLOCK, i requires 0 <= i < BLOCK => if i < |data| then data[i] else 0)
  }

  /** The length rounded up to whole blocks. */
  function RoundUp(n: nat): nat { if n % BLOCK == 0 then n else n + BLOCK - n % BLOCK }

  /** The ciphertext of `data` from position `i` on, chained to `iv`. */
  ghost function CbcEnc(e: Block -> Block, iv: Block, data: seq<bv8>, i: nat): (r: seq<bv8>)
    requires i <= |data|
    decreases |data| - i
  {
    if i == |data| then []
    else if i + BLOCK <= |data| then
      var c := e(XorBlock(data[i..i + BLOCK], iv));
      c + CbcEnc(e, c, data, i + BLOCK)
    else e(XorBlock(Pad(data[i..]), iv))
  }

  /** The chaining value left after encrypting. */
  ghost function CbcEncIv(e: Block -> Block, iv: Block, data: seq<bv8>, i: nat): (r: Block)
    requires i <= |data|
    decreases |data| - i
  {
    if i == |data| then iv
    else if i + BLOCK <= |data| then CbcEncIv(e, e(XorBlock(data[i..i + BLOCK], iv)), data, i + BLOCK)
    else e(XorBlock(Pad(data[i..]), iv))
  }

  /** Ciphertext that decryption up to `len` from block boundary `i` can read. */
  ghost predicate Readable(ct: seq<bv8>, i: nat, len: nat) {
    i <= len && i % BLOCK == 0 && RoundUp(len) <= |ct|
  }

  lemma ReadableStep(ct: seq<bv8>, i: nat, len: nat)
    requires Readable(ct, i, len)
    ensures len <= |ct| && (i < len ==> i + BLOCK <= |ct|)
    ensures i + BLOCK <= len ==> Readable(ct, i + BLOCK, len)
  {
  }

  /** The plaintext of the bytes `i` to `len` of `ct`, chained to `iv`. */
  ghost function CbcDec(d: Block -> Block, iv: Block, ct: seq<bv8>, i: nat, len: nat): (r: seq<bv8>)
    requires Readable(ct, i, len)
    decreases len - i
  {
    ReadableStep(ct, i, len);
    if i == len then []
    else if i + BLOCK <= len then
      XorBlock(d(ct[i..i + BLOCK]), iv) + CbcDec(d, ct[i..i + BLOCK], ct, i + BLOCK, len)
    else XorBlock(d(ct[i..i + BLOCK]), iv)[..len - i]
  }

  /** The chaining value left after decrypting: after a short block it is the deciphered block. */
  ghost function CbcDecIv(d: Block -> Block, iv: Block, ct: seq<bv8>, i: nat, len: nat): (r: Block)
    requires Readable(ct, i, len)
    decreases len - i
  {
    ReadableStep(ct, i, len);
    if i == len then iv
    else if i + BLOCK <= len then CbcDecIv(d, ct[i..i + BLOCK], ct, i + BLOCK, len)
    else d(ct[i..i + BLOCK])
  }

  lemma {:induction false} CbcEncLength(e: Block -> Block, iv: Block, data: seq<bv8>, i: nat)
    requires i <= |data| && i % BLOCK == 0
    ensures |CbcEnc(e, iv, data, i)| == RoundUp(|data|) - i
    decreases |data| - i
  {
    if i >= |data| || i + BLOCK > |data| {
    } else {
      CbcEncLength(e, e(XorBlock(data[i..i + BLOCK], iv)), data, i + BLOCK);
    }
  }

  /** The block of data at `j`, a short one filled up. */
  ghost function DataBlock(data: seq<bv8>, j: nat): Block
    requires j < |data|
  {
    if j + BLOCK <= |data| then data[j..j + BLOCK] else Pad(data[j..])
  }

  /** Section 6.2 of NIST SP 800-38A: a ciphertext block enciphers its data xor-ed with the ciphertext block before. */
  lemma {:induction false} CbcEncBlock(e: Block -> Block, iv: Block, data: seq<bv8>, i: nat, j: nat)
    requires i <= j < |data| && i % BLOCK == 0 && j % BLOCK == 0
    ensures var ct := CbcEnc(e, iv, data, i);
            && j - i + BLOCK <= |ct| && (j > i ==> j - i >= BLOCK)
            && var prev := if j == i then iv else ct[j - i - BLOCK..j - i];
               ct[j - i..j - i + BLOCK] == e(XorBlock(DataBlock(data, j), prev))
    decreases |data| - i
  {
    hide XorBlock, Pad, CbcEnc;
    CbcEncLength(e, iv, data, i);
    var c := e(XorBlock(DataBlock(data, i), iv));
    CbcEncFirst(e, iv, data, i);
    if j > i {
      var rest := CbcEnc(e, c, data, i + BLOCK);
      CbcEncBlock(e, c, data, i + BLOCK, j);
      Behind(c, rest, j - i - BLOCK, j - i);
      if j > i + BLOCK {
        Behind(c, rest, j - i - BLOCK - BLOCK, j - i - BLOCK);
      }
    }
  }

  lemma CbcEncFirst(e: Block -> Block, iv: Block, data: seq<bv8>, i: nat)
    requires i < |data|
    ensures var ct, c := CbcEnc(e, iv, data, i), e(XorBlock(DataBlock(data, i), iv));
            && |ct| >= BLOCK && ct[..BLOCK] == c && ct[0..BLOCK] == c
            && (i + BLOCK <= |data| ==> ct == c + CbcEnc(e, c, data, i + BLOCK))
  {
    hide XorBlock, Pad;
  }

  /** Each data block is its ciphertext deciphered, xor-ed with the ciphertext block before it; a last one is cut. */
  lemma {:induction false} CbcDecBlock(d: Block -> Block, iv: Block, ct: seq<bv8>, i: nat, len: nat, j: nat)
    requires Readable(ct, i, len) && i <= j < len && j % BLOCK == 0
    ensures var p, end := CbcDec(d, iv, ct, i, len), if j + BLOCK <= len then j + BLOCK else len;
            && |p| == len - i && j + BLOCK <= |ct| && (j > i ==> j >= BLOCK)
            && var prev := if j == i then iv else ct[j - BLOCK..j];
               p[j - i..end - i] == XorBlock(d(ct[j..j + BLOCK]), prev)[..end - j]
    decreases len - i
  {
    hide XorBlock, CbcDec, Readable;
    ReadableStep(ct, i, len);
    CbcDecLength(d, iv, ct, i, len);
    CbcDecFirst(d, iv, ct, i, len);
    if j > i {
      NextBlock(i, j);
      var first, back := XorBlock(d(ct[i..i + BLOCK]), iv), ct[i..i + BLOCK];
      var rest := CbcDec(d, back, ct, i + BLOCK, len);
      CbcDecBlock(d, back, ct, i + BLOCK, len, j);
      var end := if j + BLOCK <= len then j + BLOCK else len;
      Behind(first, rest, j - i - BLOCK, end - i - BLOCK);
    }
  }

  lemma NextBlock(i: nat, j: nat)
    requires i < j && i % BLOCK == 0 && j % BLOCK == 0
    ensures i + BLOCK <= j
  {
  }

  lemma Behind(c: seq<bv8>, rest: seq<bv8>, i: nat, j: nat)
    requires |c| == BLOCK && i <= j <= |rest|
    ensures (c + rest)[i + BLOCK..j + BLOCK] == rest[i..j]
  {
  }

  lemma CbcDecFirst(d: Block -> Block, iv: Block, ct: seq<bv8>, i: nat, len: nat)
    requires Readable(ct, i, len) && i < len
    ensures i % BLOCK == 0 && i + BLOCK <= |ct|
    ensures var p, first := CbcDec(d, iv, ct, i, len), XorBlock(d(ct[i..i + BLOCK]), iv);
            if i + BLOCK <= len then
              && Readable(ct, i + BLOCK, len) && p == first + CbcDec(d, ct[i..i + BLOCK], ct, i + BLOCK, len)
              && p[0..BLOCK] == first[..BLOCK]
            else p == first[..len - i] && p[0..len - i] == first[..len - i]
  {
    hide XorBlock;
    ReadableStep(ct, i, len);
  }

  lemma {:induction false} CbcDecLength(d: Block -> Block, iv: Block, ct: seq<bv8>, i: nat, len: nat)
    requires Readable(ct, i, len)
    ensures |CbcDec(d, iv, ct, i, len)| == len - i
    decreases len - i
  {
    hide XorBlock;
    ReadableStep(ct, i, len);
    if i == len || i + BLOCK > len {
    } else {
      CbcDecLength(d, ct[i..i + BLOCK], ct, i + BLOCK, len);
    }
  }

  /** The value carried on is the last ciphertext block, or the one given if there is none. */
  lemma {:induction false} CbcEncCarries(e: Block -> Block, iv: Block, data: seq<bv8>, i: nat)
    requires i <= |data| && i % BLOCK == 0
    ensures var ct := CbcEnc(e, iv, data, i);
            |ct| == RoundUp(|data|) - i
            && CbcEncIv(e, iv, data, i) == if i == |data| then iv else ct[|ct| - BLOCK..]
    decreases |data| - i
  {
    hide XorBlock, Pad;
    CbcEncLength(e, iv, data, i);
    if i == |data| || i + BLOCK > |data| {
    } else {
      var c := e(XorBlock(data[i..i + BLOCK], iv));
      CbcEncCarries(e, c, data, i + BLOCK);
      var rest := CbcEnc(e, c, data, i + BLOCK);
      var ct: seq<bv8> := c + rest;
      if i + BLOCK == |data| {
        assert ct[|ct| - BLOCK..] == c;
      } else {
        assert |rest| >= BLOCK;
        assert ct[|ct| - BLOCK..] == rest[|rest| - BLOCK..];
      }
    }
  }

  lemma XorBlockTwice(a: Block, iv: Block)
    ensures XorBlock(XorBlock(a, iv), iv) == a
  {
    hide XorBlock;
    forall i | 0 <= i < BLOCK
      ensures XorBlock(XorBlock(a, iv), iv)[i] == a[i]
    {
      XorTwice(a[i], iv[i]);
    }
  }

  lemma XorTwice(a: bv8, b: bv8)
    ensures Xor(Xor(a, b), b) == a
  {
  }

  /**
   * Decryption inverts encryption for every length: the ciphertext, rounded up to a block, comes back
   * as the data.
   */
  lemma {:induction false} CbcInverts(e: Block -> Block, d: Block -> Block, iv: Block, data: seq<bv8>, ct: seq<bv8>,
                                      i: nat)
    requires forall b: Block :: d(e(b)) == b
    requires i <= |data| && i % BLOCK == 0
    requires |ct| == RoundUp(|data|) && ct[i..] == CbcEnc(e, iv, data, i)
    ensures CbcDec(d, iv, ct, i, |data|) == data[i..]
    decreases |data| - i
  {
    hide XorBlock, Pad;
    ReadableStep(ct, i, |data|);
    if i < |data| {
      var p := if i + BLOCK <= |data| then data[i..i + BLOCK] else Pad(data[i..]);
      var c := e(XorBlock(p, iv));
      assert ct[i..i + BLOCK] == ct[i..][..BLOCK] == c;
      XorBlockTwice(p, iv);
      if i + BLOCK <= |data| {
        assert ct[i + BLOCK..] == ct[i..][BLOCK..];
        CbcInverts(e, d, c, data, ct, i + BLOCK);
        assert data[i..] == p + data[i + BLOCK..];
      } else {
        assert p[..|data| - i] == data[i..];
      }
    }
  }

  /** Encryption from `i` on only looks at the data from `i` on. */
  lemma {:induction false} CbcEncShift(e: Block -> Block, iv: Block, a: seq<bv8>, b: seq<bv8>, i: nat)
    requires i <= |b|
    ensures CbcEnc(e, iv, a + b, |a| + i) == CbcEnc(e, iv, b, i)
    ensures CbcEncIv(e, iv, a + b, |a| + i) == CbcEncIv(e, iv, b, i)
    decreases |b| - i
  {
    hide XorBlock, Pad;
    var ab := a + b;
    if i < |b| {
      if i + BLOCK <= |b| {
        assert ab[|a| + i..|a| + i + BLOCK] == b[i..i + BLOCK];
        CbcEncShift(e, e(XorBlock(b[i..i + BLOCK], iv)), a, b, i + BLOCK);
      } else {
        assert ab[|a| + i..] == b[i..];
      }
    }
  }

  /** For whole blocks first, encrypting `a + b` is encrypting `a`, then `b` with the carried value. */
  lemma {:induction false} CbcEncConcat(e: Block -> Block, iv: Block, a: seq<bv8>, b: seq<bv8>, i: nat)
    requires i <= |a| && i % BLOCK == 0 && |a| % BLOCK == 0
    ensures var carried := CbcEncIv(e, iv, a, i);
            && CbcEnc(e, iv, a + b, i) == CbcEnc(e, iv, a, i) + CbcEnc(e, carried, b, 0)
            && CbcEncIv(e, iv, a + b, i) == CbcEncIv(e, carried, b, 0)
    decreases |a| - i
  {
    hide XorBlock, Pad;
    if i == |a| {
      CbcEncShift(e, iv, a, b, 0);
    } else {
      WholeBlock(i, |a|);
      assert (a + b)[i..i + BLOCK] == a[i..i + BLOCK];
      var c := e(XorBlock(a[i..i + BLOCK], iv));
      CbcEncConcat(e, c, a, b, i + BLOCK);
      var tail := CbcEnc(e, CbcEncIv(e, c, a, i + BLOCK), b, 0);
      assert c + (CbcEnc(e, c, a, i + BLOCK) + tail) == c + CbcEnc(e, c, a, i + BLOCK) + tail;
    }
  }

  lemma Associative(a: seq<bv8>, b: seq<bv8>, c: seq<bv8>)
    ensures a + (b + c) == (a + b) + c
  {
  }

  lemma WholeBlock(i: nat, n: nat)
    requires i < n && i % BLOCK == 0 && n % BLOCK == 0
    ensures i + BLOCK <= n
  {
  }

  lemma {:induction false} CbcDecShift(d: Block -> Block, iv: Block, a: seq<bv8>, b: seq<bv8>, i: nat, len: nat)
    requires |a| % BLOCK == 0 && Readable(b, i, len)
    ensures Readable(a + b, |a| + i, |a| + len)
    ensures CbcDec(d, iv, a + b, |a| + i, |a| + len) == CbcDec(d, iv, b, i, len)
    ensures CbcDecIv(d, iv, a + b, |a| + i, |a| + len) == CbcDecIv(d, iv, b, i, len)
    decreases len - i
  {
    hide XorBlock, RoundUp;
    ReadableShift(a, b, i, len);
    ReadableStep(b, i, len);
    ReadableStep(a + b, |a| + i, |a| + len);
    if i >= len {
    } else {
      assert (a + b)[|a| + i..|a| + i + BLOCK] == b[i..i + BLOCK];
      if i + BLOCK <= len {
        CbcDecShift(d, b[i..i + BLOCK], a, b, i + BLOCK, len);
      }
    }
  }

  lemma ReadableShift(a: seq<bv8>, b: seq<bv8>, i: nat, len: nat)
    requires |a| % BLOCK == 0 && Readable(b, i, len)
    ensures Readable(a + b, |a| + i, |a| + len)
  {
  }

  lemma ReadableWhole(a: seq<bv8>, b: seq<bv8>, i: nat, len: nat)
    requires i <= |a| && i % BLOCK == 0 && |a| % BLOCK == 0 && Readable(b, 0, len)
    ensures Readable(a, i, |a|) && Readable(a + b, i, |a| + len)
  {
    ReadableShift(a, b, 0, len);
  }

  /** For whole blocks first, decrypting `a + b` is decrypting `a`, then `b` with the carried value. */
  lemma {:induction false} CbcDecConcat(d: Block -> Block, iv: Block, a: seq<bv8>, b: seq<bv8>, i: nat, len: nat)
    requires i <= |a| && i % BLOCK == 0 && |a| % BLOCK == 0 && Readable(b, 0, len)
    ensures Readable(a, i, |a|) && Readable(a + b, i, |a| + len)
    ensures var carried := CbcDecIv(d, iv, a, i, |a|);
            && CbcDec(d, iv, a + b, i, |a| + len) == CbcDec(d, iv, a, i, |a|) + CbcDec(d, carried, b, 0, len)
            && CbcDecIv(d, iv, a + b, i, |a| + len) == CbcDecIv(d, carried, b, 0, len)
    decreases |a| - i
  {
    hide XorBlock, RoundUp, Readable;
    ReadableWhole(a, b, i, len);
    ReadableStep(a, i, |a|);
    ReadableStep(a + b, i, |a| + len);
    if i == |a| {
      CbcDecShift(d, iv, a, b, 0, len);
    } else {
      WholeBlock(i, |a|);
      var c := a[i..i + BLOCK];
      assert (a + b)[i..i + BLOCK] == c;
      CbcDecConcat(d, c, a, b, i + BLOCK, len);
      var p, mid := XorBlock(d(c), iv), CbcDec(d, c, a, i + BLOCK, |a|);
      var tail := CbcDec(d, CbcDecIv(d, c, a, i + BLOCK, |a|), b, 0, len);
      Associative(p, mid, tail);
    }
  }

  /** The block functions under a schedule. */
  ghost function EncBlock(w: Schedule, nr: nat): (Block -> Block)
    requires nr > 0
  {
    (b: Block) => StateBlock(Cipher(BlockState(b), w, nr))
  }

  ghost function DecBlock(w: Schedule, nr: nat): (Block -> Block)
    requires nr > 0
  {
    (b: Block) => StateBlock(EqInvCipher(BlockState(b), w, nr))
  }

  /** The block functions are inverse under the two schedules of one key. */
  lemma BlockFunctionsInvert(we: Schedule, wd: Schedule, w: Schedule, nr: nat)
    requires nr > 0
    requires forall j :: 0 <= j <= nr ==> we(j) == w(j) && wd(j) == DecSchedule(w, nr)(j)
    ensures forall b: Block :: DecBlock(wd, nr)(EncBlock(we, nr)(b)) == b
  {
    hide Cipher, EqInvCipher, BlockState, StateBlock, DecSchedule;
    forall b: Block
      ensures DecBlock(wd, nr)(EncBlock(we, nr)(b)) == b
    {
      var x := BlockState(b);
      CiphersAgree(x, we, w, nr);
      BlockStateOf(Cipher(x, w, nr));
      CiphersAgree(Cipher(x, w, nr), wd, DecSchedule(w, nr), nr);
      DecryptInvertsEncrypt(x, w, nr);
      BlockStateOf(x);
      SameBlock(StateBlock(x), b);
    }
  }

  /** The bytes `off` to `off + n` of the input, filled up with zeros, added to the chaining value. */
  method MixIn(inp: array<bv8>, off: nat, n: nat, ivec: array<bv8>) returns (tmp: Block)
    requires off + n <= inp.Length && n <= BLOCK && ivec.Length == BLOCK
    ensures tmp == XorBlock(Pad(inp[off..off + n]), ivec[..])
  {
    hide Xor;
    var t := new bv8[BLOCK];
    for k := 0 to n
      invariant forall j :: 0 <= j < k ==> t[j] == Xor(inp[off + j], ivec[j])
    {
      t[k] := Xor(inp[off + k], ivec[k]);
    }
    for k := n to BLOCK
      invariant forall j :: 0 <= j < n ==> t[j] == Xor(inp[off + j], ivec[j])
      invariant forall j :: n <= j < k ==> t[j] == Xor(0, ivec[j])
    {
      ZeroXor(ivec[k]);
      t[k] := ivec[k];
    }
    tmp := t[..];
  }

  lemma ZeroXor(a: bv8)
    ensures Xor(0, a) == a
  {
  }

  /** Copies a block to `off`. */
  method CopyBlock(b: seq<bv8>, dst: array<bv8>, off: nat)
    requires off + |b| <= dst.Length
    modifies dst
    ensures dst[off..off + |b|] == b
    ensures forall m :: 0 <= m < dst.Length && !(off <= m < off + |b|) ==> dst[m] == old(dst[m])
  {
    forall k | 0 <= k < |b| {
      dst[off + k] := b[k];
    }
  }

  /** What the encryption loop keeps, `off` bytes being done. */
  ghost predicate EncDone(e: Block -> Block, iv0: Block, data: seq<bv8>, off: nat, out: seq<bv8>, iv: Block)
    requires off <= |data|
  {
    && off <= |out|
    && CbcEnc(e, iv0, data, 0) == out[..off] + CbcEnc(e, iv, data, off)
    && CbcEncIv(e, iv0, data, 0) == CbcEncIv(e, iv, data, off)
  }

  /** `now` is the block for `data` chained to `iv`, and the new chaining value. */
  ghost predicate OneEncrypted(e: Block -> Block, data: seq<bv8>, iv: seq<bv8>, now: seq<bv8>, iv': seq<bv8>) {
    |data| <= BLOCK && |iv| == BLOCK && now == iv' == e(XorBlock(Pad(data), iv))
  }

  lemma EncDoneStep(e: Block -> Block, iv0: Block, data: seq<bv8>, off: nat, out: seq<bv8>, iv: Block,
                    out': seq<bv8>, iv': Block)
    requires off + BLOCK <= |data| && EncDone(e, iv0, data, off, out, iv)
    requires off + BLOCK <= |out'| && out'[..off] == out[..off]
    requires OneEncrypted(e, data[off..off + BLOCK], iv, out'[off..off + BLOCK], iv')
    ensures EncDone(e, iv0, data, off + BLOCK, out', iv')
  {
    hide XorBlock;
    var p := data[off..off + BLOCK];
    assert Pad(p) == p;
    assert out'[..off + BLOCK] == out'[..off] + iv';
    var rest := CbcEnc(e, iv', data, off + BLOCK);
    Associative(out[..off], iv', rest);
  }

  lemma EncDoneLast(e: Block -> Block, iv0: Block, data: seq<bv8>, off: nat, out: seq<bv8>, iv: Block,
                    out': seq<bv8>, iv': Block)
    requires off < |data| < off + BLOCK && EncDone(e, iv0, data, off, out, iv)
    requires off + BLOCK <= |out'| && out'[..off] == out[..off]
    requires OneEncrypted(e, data[off..], iv, out'[off..off + BLOCK], iv')
    ensures out'[..off + BLOCK] == CbcEnc(e, iv0, data, 0) && iv' == CbcEncIv(e, iv0, data, 0)
  {
    hide XorBlock, Pad;
    assert out'[..off + BLOCK] == out'[..off] + iv';
  }

  lemma RoundUpBounds(n: nat)
    ensures n <= RoundUp(n) < n + BLOCK && RoundUp(n) % BLOCK == 0
  {
  }

  lemma RoundUpIs(off: nat, len: nat)
    requires off % BLOCK == 0 && len < BLOCK
    ensures RoundUp(off + len) == if len == 0 then off else off + BLOCK
  {
  }

  lemma EncDoneStart(e: Block -> Block, iv0: Block, data: seq<bv8>, out: seq<bv8>)
    ensures EncDone(e, iv0, data, 0, out, iv0)
  {
  }

  /** Encrypts the `n` input bytes at `off` as one block, and chains on it. */
  method EncryptOne(inp: array<bv8>, off: nat, n: nat, out: array<bv8>, key: AesKey, ivec: array<bv8>)
    requires RoundsOk(key) && ivec.Length == BLOCK && ivec != inp && ivec != out
    requires n <= BLOCK && off + n <= inp.Length && off + BLOCK <= out.Length
    modifies out, ivec
    ensures forall m :: 0 <= m < out.Length && !(off <= m < off + BLOCK) ==> out[m] == old(out[m])
    ensures OneEncrypted(EncBlock(RoundKeys(key.rdKey[..]), key.rounds), old(inp[off..off + n]), old(ivec[..]),
                         out[off..off + BLOCK], ivec[..])
  {
    hide Cipher, RoundKeys, XorBlock, Pad, BlockState, StateBlock;
    var tmp := MixIn(inp, off, n, ivec);
    var c := Encrypt(tmp, key);
    EncBlockIs(tmp, c, RoundKeys(key.rdKey[..]), key.rounds);
    CopyBlock(c, out, off);
    CopyBlock(c, ivec, 0);
    assert ivec[..] == ivec[0..BLOCK];
  }

  lemma EncBlockIs(b: Block, c: seq<bv8>, w: Schedule, nr: nat)
    requires nr > 0 && |c| == BLOCK
    ensures BlockState(c) == Cipher(BlockState(b), w, nr) ==> c == EncBlock(w, nr)(b)
    ensures BlockState(c) == EqInvCipher(BlockState(b), w, nr) ==> c == DecBlock(w, nr)(b)
  {
    hide Cipher, EqInvCipher, BlockState, StateBlock;
    BlockStateOf(Cipher(BlockState(b), w, nr));
    BlockStateOf(EqInvCipher(BlockState(b), w, nr));
    if BlockState(c) == Cipher(BlockState(b), w, nr) {
      SameBlock(c, StateBlock(Cipher(BlockState(b), w, nr)));
    }
    if BlockState(c) == EqInvCipher(BlockState(b), w, nr) {
      SameBlock(c, StateBlock(EqInvCipher(BlockState(b), w, nr)));
    }
  }

  /** Encrypts `length` bytes, in place or between arrays; the output is rounded up to a block. */
  method CbcEncrypt(inp: array<bv8>, out: array<bv8>, length: nat, key: AesKey, ivec: array<bv8>)
    requires RoundsOk(key) && ivec.Length == BLOCK && ivec != inp && ivec != out
    requires length <= inp.Length && RoundUp(length) <= out.Length
    modifies out, ivec
    ensures var e := EncBlock(RoundKeys(key.rdKey[..]), key.rounds);
            && out[..RoundUp(length)] == CbcEnc(e, old(ivec[..]), old(inp[..length]), 0)
            && ivec[..] == CbcEncIv(e, old(ivec[..]), old(inp[..length]), 0)
    ensures out[RoundUp(length)..] == old(out[RoundUp(length)..])
  {
    hide CbcEnc, CbcEncIv, XorBlock, EncDone, OneEncrypted, Cipher, RoundKeys, Pad, RoundUp, EncBlock;
    RoundUpBounds(length);
    ghost var e := EncBlock(RoundKeys(key.rdKey[..]), key.rounds);
    ghost var iv0, data, hi := ivec[..], inp[..length], RoundUp(length);
    var off, len := 0, length;
    EncDoneStart(e, iv0, data, out[..]);
    while len >= BLOCK
      invariant 0 <= off && 0 <= len && off + len == length && off % BLOCK == 0 && off + len <= hi
      invariant forall m :: off <= m < length ==> inp[m] == data[m]
      invariant EncDone(e, iv0, data, off, out[..], ivec[..])
      invariant forall m :: hi <= m < out.Length ==> out[m] == old(out[m])
    {
      ghost var before, iv := out[..], ivec[..];
      assert inp[off..off + BLOCK] == data[off..off + BLOCK];
      EncryptOne(inp, off, BLOCK, out, key, ivec);
      EncDoneStep(e, iv0, data, off, before, iv, out[..], ivec[..]);
      off, len := off + BLOCK, len - BLOCK;
    }
    RoundUpIs(off, len);
    if len > 0 {
      ghost var before, iv := out[..], ivec[..];
      assert inp[off..off + len] == data[off..];
      EncryptOne(inp, off, len, out, key, ivec);
      EncDoneLast(e, iv0, data, off, before, iv, out[..], ivec[..]);
    } else {
      EncDoneEnd(e, iv0, data, out[..], ivec[..]);
    }
  }

  lemma EncDoneEnd(e: Block -> Block, iv0: Block, data: seq<bv8>, out: seq<bv8>, iv: Block)
    requires EncDone(e, iv0, data, |data|, out, iv)
    ensures out[..|data|] == CbcEnc(e, iv0, data, 0) && iv == CbcEncIv(e, iv0, data, 0)
  {
  }

  /** `now` is the first `n` bytes of the plaintext of `c` chained to `iv`, and `iv'` the new chaining value. */
  ghost predicate OneDecrypted(d: Block -> Block, c: seq<bv8>, iv: seq<bv8>, n: nat, now: seq<bv8>, iv': seq<bv8>) {
    && n <= BLOCK && |c| == BLOCK && |iv| == BLOCK
    && iv' == (if n == BLOCK then c else d(c))
    && now == XorBlock(d(c), iv)[..n]
  }

  /** Decrypts the block at `off` into `n` bytes, and chains on its ciphertext if it is a whole block. */
  method DecryptOne(inp: array<bv8>, off: nat, n: nat, out: array<bv8>, key: AesKey, ivec: array<bv8>)
    requires RoundsOk(key) && ivec.Length == BLOCK && ivec != inp && ivec != out
    requires n <= BLOCK && off + BLOCK <= inp.Length && off + n <= out.Length
    modifies out, ivec
    ensures forall m :: 0 <= m < out.Length && !(off <= m < off + n) ==> out[m] == old(out[m])
    ensures OneDecrypted(DecBlock(RoundKeys(key.rdKey[..]), key.rounds), old(inp[off..off + BLOCK]), old(ivec[..]), n,
                         out[off..off + n], ivec[..])
  {
    hide EqInvCipher, RoundKeys, BlockState, StateBlock, Xor, DecBlock, XorBlock;
    var tmp := inp[off..off + BLOCK];
    ghost var d, iv := DecBlock(RoundKeys(key.rdKey[..]), key.rounds), ivec[..];
    var p := Decrypt(tmp, key);
    EncBlockIs(tmp, p, RoundKeys(key.rdKey[..]), key.rounds);
    assert p == d(tmp);
    AddChain(p, n, out, off, ivec);
    CopyBlock(if n == BLOCK then tmp else p, ivec, 0);
    assert ivec[..] == ivec[0..BLOCK];
  }

  /** Stores `n` bytes of a deciphered block, added to the chaining value. */
  method AddChain(p: Block, n: nat, out: array<bv8>, off: nat, ivec: array<bv8>)
    requires ivec.Length == BLOCK && ivec != out && n <= BLOCK && off + n <= out.Length
    modifies out
    ensures out[off..off + n] == XorBlock(p, ivec[..])[..n]
    ensures forall m :: 0 <= m < out.Length && !(off <= m < off + n) ==> out[m] == old(out[m])
  {
    hide Xor;
    for k := 0 to n
      invariant forall j :: 0 <= j < k ==> out[off + j] == Xor(p[j], ivec[j])
      invariant forall m :: 0 <= m < out.Length && !(off <= m < off + k) ==> out[m] == old(out[m])
    {
      out[off + k] := Xor(p[k], ivec[k]);
    }
  }

  /** What the decryption loop keeps, `off` bytes being done. */
  ghost predicate DecDone(d: Block -> Block, iv0: Block, ct: seq<bv8>, len: nat, off: nat, out: seq<bv8>, iv: Block) {
    && Readable(ct, 0, len) && Readable(ct, off, len) && off <= |out|
    && CbcDec(d, iv0, ct, 0, len) == out[..off] + CbcDec(d, iv, ct, off, len)
    && CbcDecIv(d, iv0, ct, 0, len) == CbcDecIv(d, iv, ct, off, len)
  }

  lemma DecDoneStart(d: Block -> Block, iv0: Block, ct: seq<bv8>, len: nat, out: seq<bv8>)
    requires RoundUp(len) <= |ct|
    ensures DecDone(d, iv0, ct, len, 0, out, iv0)
  {
  }

  lemma DecDoneEnd(d: Block -> Block, iv0: Block, ct: seq<bv8>, len: nat, out: seq<bv8>, iv: Block)
    requires DecDone(d, iv0, ct, len, len, out, iv)
    ensures out[..len] == CbcDec(d, iv0, ct, 0, len) && iv == CbcDecIv(d, iv0, ct, 0, len)
  {
  }

  lemma DecDoneStep(d: Block -> Block, iv0: Block, ct: seq<bv8>, len: nat, off: nat, out: seq<bv8>, iv: Block,
                    out': seq<bv8>, iv': Block)
    requires off + BLOCK <= len && DecDone(d, iv0, ct, len, off, out, iv)
    requires off + BLOCK <= |ct| && off + BLOCK <= |out'| && out'[..off] == out[..off]
    requires OneDecrypted(d, ct[off..off + BLOCK], iv, BLOCK, out'[off..off + BLOCK], iv')
    ensures DecDone(d, iv0, ct, len, off + BLOCK, out', iv')
  {
    hide XorBlock, RoundUp, Readable;
    ReadableStep(ct, off, len);
    var c := ct[off..off + BLOCK];
    var p, rest := XorBlock(d(c), iv), CbcDec(d, c, ct, off + BLOCK, len);
    assert p[..BLOCK] == p;
    assert out'[..off + BLOCK] == out'[..off] + p;
    Associative(out[..off], p, rest);
  }

  lemma DecDoneLast(d: Block -> Block, iv0: Block, ct: seq<bv8>, len: nat, off: nat, out: seq<bv8>, iv: Block,
                    out': seq<bv8>, iv': Block)
    requires off < len < off + BLOCK && DecDone(d, iv0, ct, len, off, out, iv)
    requires off + BLOCK <= |ct| && len <= |out'| && out'[..off] == out[..off]
    requires OneDecrypted(d, ct[off..off + BLOCK], iv, len - off, out'[off..len], iv')
    ensures out'[..len] == CbcDec(d, iv0, ct, 0, len) && iv' == CbcDecIv(d, iv0, ct, 0, len)
  {
    hide XorBlock, RoundUp;
    assert out'[..len] == out'[..off] + out'[off..len];
  }

  /** Decrypts `length` bytes, in place or between arrays; the last block is read in full. */
  method CbcDecrypt(inp: array<bv8>, out: array<bv8>, length: nat, key: AesKey, ivec: array<bv8>)
    requires RoundsOk(key) && ivec.Length == BLOCK && ivec != inp && ivec != out
    requires RoundUp(length) <= inp.Length && length <= out.Length
    modifies out, ivec
    ensures var d, ct := DecBlock(RoundKeys(key.rdKey[..]), key.rounds), old(inp[..RoundUp(length)]);
            && Readable(ct, 0, length)
            && out[..length] == CbcDec(d, old(ivec[..]), ct, 0, length)
            && ivec[..] == CbcDecIv(d, old(ivec[..]), ct, 0, length)
    ensures out[length..] == old(out[length..])
  {
    hide CbcDec, CbcDecIv, XorBlock, DecDone, OneDecrypted, EqInvCipher, RoundKeys, RoundUp, DecBlock, Readable;
    ghost var d := DecBlock(RoundKeys(key.rdKey[..]), key.rounds);
    RoundUpBounds(length);
    ghost var iv0, hi := ivec[..], RoundUp(length);
    ghost var ct := inp[..hi];
    var off, len := 0, length;
    DecDoneStart(d, iv0, ct, length, out[..]);
    ReadableAll(ct, length);
    while len >= BLOCK
      invariant 0 <= off && 0 <= len && off + len == length && off % BLOCK == 0
      invariant forall m :: off <= m < hi ==> inp[m] == ct[m]
      invariant DecDone(d, iv0, ct, length, off, out[..], ivec[..])
      invariant forall m :: length <= m < out.Length ==> out[m] == old(out[m])
    {
      ghost var before, iv := out[..], ivec[..];
      assert inp[off..off + BLOCK] == ct[off..off + BLOCK];
      DecryptOne(inp, off, BLOCK, out, key, ivec);
      DecDoneStep(d, iv0, ct, length, off, before, iv, out[..], ivec[..]);
      off, len := off + BLOCK, len - BLOCK;
    }
    RoundUpIs(off, len);
    if len > 0 {
      ghost var before, iv := out[..], ivec[..];
      assert inp[off..off + BLOCK] == ct[off..off + BLOCK];
      DecryptOne(inp, off, len, out, key, ivec);
      DecDoneLast(d, iv0, ct, length, off, before, iv, out[..], ivec[..]);
    } else {
      DecDoneEnd(d, iv0, ct, length, out[..], ivec[..]);
    }
    assert forall m :: length <= m < out.Length ==> out[m] == old(out[m]);
  }

  lemma ReadableAll(ct: seq<bv8>, len: nat)
    requires RoundUp(len) <= |ct|
    ensures Readable(ct, 0, len)
  {
  }

  /** Block functions that agree everywhere encrypt alike. */
  lemma {:induction false} CbcEncSame(e: Block -> Block, e': Block -> Block, iv: Block, data: seq<bv8>, i: nat)
    requires i <= |data| && forall b: Block :: e(b) == e'(b)
    ensures CbcEnc(e, iv, data, i) == CbcEnc(e', iv, data, i)
    decreases |data| - i
  {
    hide XorBlock, Pad;
    if i == |data| || i + BLOCK > |data| {
    } else {
      CbcEncSame(e, e', e(XorBlock(data[i..i + BLOCK], iv)), data, i + BLOCK);
    }
  }

  lemma EncBlocksAgree(we: Schedule, w: Schedule, nr: nat)
    requires nr > 0 && forall j :: 0 <= j <= nr ==> we(j) == w(j)
    ensures forall b: Block :: EncBlock(we, nr)(b) == EncBlock(w, nr)(b)
  {
    hide Cipher, BlockState, StateBlock;
    forall b: Block ensures EncBlock(we, nr)(b) == EncBlock(w, nr)(b) {
      CiphersAgree(BlockState(b), we, w, nr);
    }
  }

  /**
   * Encrypting and then decrypting a buffer in place, for any key and length, restores its bytes; `ct` is what was
   * there between.
   */
  method CbcInPlaceRoundTrip(buf: array<bv8>, length: nat, userKey: seq<bv8>, bits: int, iv: seq<bv8>)
    returns (ct: seq<bv8>)
    requires (bits == 128 || bits == 192 || bits == 256) && |userKey| >= bits / 8 && |iv| == BLOCK
    requires RoundUp(length) <= buf.Length
    modifies buf
    ensures ct == CbcEnc(EncBlock(EncSchedule(KeyWords(userKey, bits / 32)), bits / 32 + 6), iv, old(buf[..length]), 0)
    ensures buf[..length] == old(buf[..length])
  {
    hide CbcEnc, CbcDec, EncBlock, DecBlock, EncSchedule, KeyWords, RoundKeys, DecSchedule, RoundKey, Expand, RoundUp;
    RoundUpBounds(length);
    ghost var data, w, nr := buf[..length], EncSchedule(KeyWords(userKey, bits / 32)), bits / 32 + 6;
    var enc := new AesKey();
    var status := SetEncryptKey(Some(userKey), bits, enc);
    EncKeySchedule(enc, userKey, bits);
    ghost var we := RoundKeys(enc.rdKey[..]);
    var ivec := new bv8[BLOCK](i requires 0 <= i < BLOCK => iv[i]);
    assert ivec[..] == iv;
    CbcEncrypt(buf, buf, length, enc, ivec);
    ct := buf[..RoundUp(length)];
    EncBlocksAgree(we, w, nr);
    CbcEncSame(EncBlock(we, nr), EncBlock(w, nr), iv, data, 0);
    var dec := new AesKey();
    status := SetDecryptKey(Some(userKey), bits, dec);
    RoundKeysAre(dec.rdKey[..]);
    ghost var wd := RoundKeys(dec.rdKey[..]);
    BlockFunctionsInvert(we, wd, w, nr);
    ivec := new bv8[BLOCK](i requires 0 <= i < BLOCK => iv[i]);
    assert ivec[..] == iv;
    CbcDecrypt(buf, buf, length, dec, ivec);
    assert ct[0..] == ct && data[0..] == data;
    CbcInverts(EncBlock(we, nr), DecBlock(wd, nr), iv, data, ct, 0);
  }
}
